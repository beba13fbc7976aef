/**
 What the parsers return, said without the parsers: which lines open a block, what its name is, which address
 a line announces, and that the result is the pairs these give, each at its first occurrence.
 */
module ParserMeaning {
  import opened Text
  import opened Ipv4
  import opened Sequences
  import opened IfconfigParser
  import opened ParserProperties

  // Names

  /** The name is the token up to its first at-sign, or without it the token but for one colon at the end. */
  ghost predicate IsNameOf(token: string, name: string) {
    && '@' !in name
    && (name + "@" <= token || token == name + ":" || (token == name && !(token != "" && token[|token| - 1] == ':')))
  }

  lemma UpToAtIff(s: string, name: string)
    ensures s[..Find(s, '@')] == name <==> '@' !in name && (name + "@" <= s || s == name)
  {
    var k := Find(s, '@');
    if k < |s| {
      assert s[..k] + "@" <= s;
    } else {
      assert s[..k] == s;
    }
    if '@' !in name && name + "@" <= s {
      var rest := s[|name| + 1..];
      assert s == name + ("@" + rest);
      FindConcat(name, "@" + rest, '@');
    }
  }

  lemma ColonDropped(token: string, name: string)
    requires token != "" && token[|token| - 1] == ':'
    ensures var s := token[..|token| - 1];
            && (name + "@" <= s <==> name + "@" <= token)
            && (s == name <==> token == name + ":")
  {
    var s := token[..|token| - 1];
    assert token == s + ":";
    assert (name + "@")[|name|] == '@' && (s + ":")[|s|] == ':';
  }

  lemma NameIff(token: string, name: string)
    ensures NormalizeName(token) == name <==> IsNameOf(token, name)
  {
    if token != "" && token[|token| - 1] == ':' {
      ColonDropped(token, name);
      UpToAtIff(token[..|token| - 1], name);
    } else {
      UpToAtIff(token, name);
      assert (name + ":")[|name|] == ':';
    }
  }

  // Lines that open a block

  /** For `ifconfig` a line that does not start with white space; for `ip` one whose first character after
      blanks is a digit and that holds a colon. */
  ghost predicate Opens(format: Format, line: string) {
    match format
    case Ifconfig => line != "" && IsWord([line[0]])
    case IpAddr =>
      ':' in line
      && exists k :: 0 <= k < |line| && '0' <= line[k] <= '9' && forall i :: 0 <= i < k ==> line[i] in " \t\r\n"
  }

  lemma OpensIff(format: Format, line: string)
    ensures OpensBlock(format, line) <==> Opens(format, line)
  {
    if format.Ifconfig? {
      if line != "" {
        GapIsSpace([line[0]]);
        assert [line[0]][0] == line[0];
      }
    } else {
      TextOpensIff(line);
    }
  }

  lemma TextOpensIff(line: string)
    ensures OpensBlock(IpAddr, line) <==> Opens(IpAddr, line)
  {
    var before, after := TrimMeaning(line);
    var k := |before|;
    forall i | 0 <= i < k ensures line[i] in " \t\r\n" {
      assert line[i] == before[i] && before[i] in before + after;
    }
    if ':' in line {
      TrimKeeps(line, ':');
      assert line[k] == Trim(line)[0];
      if l :| 0 <= l < |line| && '0' <= line[l] <= '9' && forall i :: 0 <= i < l ==> line[i] in " \t\r\n" {
        assert l == k;
      }
    }
  }

  /** The name stands first on the line, or in `ip` output after the index. */
  ghost predicate IsBlockNamed(format: Format, line: string, name: string) {
    var tokens, i := Tokens(line), if format.Ifconfig? then 0 else 1;
    IsNameOf(if i < |tokens| then tokens[i] else "", name)
  }

  // Addresses

  ghost predicate IsMark(token: string) {
    token == "inet" || "addr:" <= token
  }

  /** What follows the mark: the next token, or the rest of the same one. */
  ghost predicate IsMarked(tokens: seq<string>, k: nat, candidate: string)
    requires k < |tokens|
  {
    || (tokens[k] == "inet" && k + 1 < |tokens| && tokens[k + 1] == candidate)
    || tokens[k] == "addr:" + candidate
  }

  /** The candidate is the address, perhaps behind another label and before a slash; the check of the address
      sees a dotted quad. */
  ghost predicate IsAddressIn(candidate: string, address: string) {
    && '/' !in address
    && (exists x: u32 :: CString(address) == InetNtop(x))
    && exists rest ::
      (candidate == address + rest || candidate == "addr:" + (address + rest)) && (rest == "" || rest[0] == '/')
  }

  /** The first mark on the line decides. */
  ghost predicate Announces(line: string, address: string) {
    exists k, candidate ::
      && 0 <= k < |Tokens(line)| && IsMarked(Tokens(line), k, candidate)
      && (forall j :: 0 <= j < k ==> !IsMark(Tokens(line)[j]))
      && IsAddressIn(candidate, address)
  }

  lemma ValidIff(address: string)
    ensures IsValidIpv4(address) <==> exists x: u32 :: CString(address) == InetNtop(x)
  {
    hide InetNtop, InetPton, CString;
    if InetPton(CString(address)).Some? {
      PtonIffNtop(CString(address), InetPton(CString(address)).value);
    }
    if x: u32 :| CString(address) == InetNtop(x) {
      PtonIffNtop(CString(address), x);
    }
  }

  lemma ValidHasNoLabel(address: string)
    requires IsValidIpv4(address)
    ensures address != "" && address[0] != 'a'
  {
    ValidIff(address);
    var x: u32 :| CString(address) == InetNtop(x);
    QuadShape(x);
    assert InetNtop(x)[0] in InetNtop(x) && CString(address)[0] == address[0];
  }

  /** The candidate splits at the slash, and before that perhaps after a label. */
  lemma CandidateParts(candidate: string) returns (address: string, rest: string)
    ensures candidate == address + rest || candidate == "addr:" + (address + rest)
    ensures '/' !in address && (rest == "" || rest[0] == '/')
    ensures Judged(candidate) == if IsValidIpv4(address) then address else ""
  {
    hide IsValidIpv4;
    var c := WithoutAddrPrefix(candidate);
    var k := Find(c, '/');
    address, rest := c[..k], c[k..];
    assert c == address + rest;
    assert candidate == c || candidate == "addr:" + c;
  }

  lemma JudgedIsIn(candidate: string)
    requires Judged(candidate) != ""
    ensures IsAddressIn(candidate, Judged(candidate))
  {
    hide IsValidIpv4, Judged, CString, InetNtop;
    var address, rest := CandidateParts(candidate);
    ValidIff(address);
  }

  lemma AddressInIsJudged(candidate: string, address: string, rest: string)
    requires candidate == address + rest || candidate == "addr:" + (address + rest)
    requires (rest == "" || rest[0] == '/') && '/' !in address && IsValidIpv4(address)
    ensures Judged(candidate) == address && address != ""
  {
    hide IsValidIpv4;
    ValidHasNoLabel(address);
    assert candidate == address + rest ==> candidate[0] == address[0];
    assert ("addr:" + (address + rest))[5..] == address + rest;
    assert WithoutAddrPrefix(candidate) == address + rest;
    FindConcat(address, rest, '/');
    assert (address + rest)[..|address|] == address;
  }

  lemma JudgedIff(candidate: string, address: string)
    ensures Judged(candidate) == address && address != "" <==> IsAddressIn(candidate, address)
  {
    hide IsValidIpv4, Judged;
    if Judged(candidate) != "" {
      JudgedIsIn(candidate);
    }
    if IsAddressIn(candidate, address) {
      ValidIff(address);
      var rest :|
        (candidate == address + rest || candidate == "addr:" + (address + rest)) && (rest == "" || rest[0] == '/');
      AddressInIsJudged(candidate, address, rest);
    }
  }

  /** The candidate after the first mark, if there is a mark and something after it. */
  lemma {:induction false} AddressOfIff(tokens: seq<string>, address: string)
    ensures AddressOf(tokens) == address && address != "" <==>
      exists k, candidate ::
        && 0 <= k < |tokens| && IsMarked(tokens, k, candidate)
        && (forall j :: 0 <= j < k ==> !IsMark(tokens[j]))
        && IsAddressIn(candidate, address)
  {
    hide Judged, IsAddressIn;
    if tokens != [] {
      if IsMark(tokens[0]) {
        FirstMarkIff(tokens, address);
      } else {
        AddressOfIff(tokens[1..], address);
        LaterMarkIff(tokens, address);
      }
    }
  }

  /** The first token is a mark, so it decides. */
  ghost predicate FirstDecides(tokens: seq<string>, address: string)
    requires tokens != []
  {
    exists candidate :: IsMarked(tokens, 0, candidate) && IsAddressIn(candidate, address)
  }

  lemma LabelDecides(tokens: seq<string>, address: string)
    requires tokens != [] && "addr:" <= tokens[0]
    ensures AddressOf(tokens) == address && address != "" <==> FirstDecides(tokens, address)
  {
    hide Judged, IsAddressIn;
    var c := tokens[0][5..];
    assert tokens[0] == "addr:" + c;
    JudgedIff(c, address);
    assert IsMarked(tokens, 0, c);
    if d :| IsMarked(tokens, 0, d) && IsAddressIn(d, address) {
      assert d == ("addr:" + d)[5..];
    }
  }

  lemma InetDecides(tokens: seq<string>, address: string)
    requires tokens != [] && tokens[0] == "inet"
    ensures AddressOf(tokens) == address && address != "" <==> FirstDecides(tokens, address)
  {
    hide Judged, IsAddressIn;
    assert forall d :: ("addr:" + d)[0] == 'a';
    if |tokens| > 1 {
      JudgedIff(tokens[1], address);
      assert IsMarked(tokens, 0, tokens[1]);
    }
  }

  lemma FirstMarkIff(tokens: seq<string>, address: string)
    requires tokens != [] && IsMark(tokens[0])
    ensures AddressOf(tokens) == address && address != "" <==>
      exists k, candidate ::
        && 0 <= k < |tokens| && IsMarked(tokens, k, candidate)
        && (forall j :: 0 <= j < k ==> !IsMark(tokens[j]))
        && IsAddressIn(candidate, address)
  {
    if tokens[0] == "inet" {
      InetDecides(tokens, address);
    } else {
      LabelDecides(tokens, address);
    }
    hide AddressOf, IsAddressIn, IsMarked;
    if k, candidate :|
        && 0 <= k < |tokens| && IsMarked(tokens, k, candidate)
        && (forall j :: 0 <= j < k ==> !IsMark(tokens[j]))
        && IsAddressIn(candidate, address) {
      assert k == 0;
    }
  }

  lemma LaterMarkIff(tokens: seq<string>, address: string)
    requires tokens != [] && !IsMark(tokens[0])
    ensures (exists k, candidate ::
        && 0 <= k < |tokens| && IsMarked(tokens, k, candidate)
        && (forall j :: 0 <= j < k ==> !IsMark(tokens[j]))
        && IsAddressIn(candidate, address))
      <==> (exists k, candidate ::
        && 0 <= k < |tokens[1..]| && IsMarked(tokens[1..], k, candidate)
        && (forall j :: 0 <= j < k ==> !IsMark(tokens[1..][j]))
        && IsAddressIn(candidate, address))
  {
    hide IsAddressIn;
    if k, candidate :|
        && 0 <= k < |tokens| && IsMarked(tokens, k, candidate)
        && (forall j :: 0 <= j < k ==> !IsMark(tokens[j]))
        && IsAddressIn(candidate, address) {
      assert k > 0 && IsMarked(tokens[1..], k - 1, candidate);
      assert forall j :: 0 <= j < k - 1 ==> tokens[1..][j] == tokens[j + 1];
    }
    if k, candidate :|
        && 0 <= k < |tokens[1..]| && IsMarked(tokens[1..], k, candidate)
        && (forall j :: 0 <= j < k ==> !IsMark(tokens[1..][j]))
        && IsAddressIn(candidate, address) {
      assert IsMarked(tokens, k + 1, candidate);
      forall j | 0 <= j < k + 1 ensures !IsMark(tokens[j]) {
        assert j > 0 ==> tokens[j] == tokens[1..][j - 1];
      }
    }
  }

  lemma AnnouncesIff(line: string, address: string)
    ensures InetAddress(line) == address && address != "" <==> Announces(line, address)
  {
    AddressOfIff(Tokens(line), address);
  }

  // Pairs

  /** The line belongs to the block of this name: of the lines up to it, the last that opens a block names it. */
  ghost predicate InBlock(format: Format, lines: seq<string>, n: nat, name: string)
    requires n <= |lines|
  {
    exists j :: 0 <= j < n && Opens(format, lines[j]) && IsBlockNamed(format, lines[j], name)
                && forall m :: j < m < n ==> !Opens(format, lines[m])
  }

  /** Line `i` gives the pair. For `ip` the line that opens a block gives none. */
  ghost predicate Gives(format: Format, lines: seq<string>, i: nat, pair: RemoteInterface) {
    && i < |lines| && Announces(lines[i], pair.ipv4) && InBlock(format, lines, i + 1, pair.name)
    && (format.IpAddr? ==> !Opens(format, lines[i]))
    && pair.name != "" && pair.name != "lo" && pair.name != "lo0"
  }

  ghost predicate GivenBy(format: Format, lines: seq<string>, n: nat, pair: RemoteInterface) {
    exists i :: 0 <= i < n && Gives(format, lines, i, pair)
  }

  /** Some line gives `x` before any gives `y`. */
  ghost predicate GivenEarlier(format: Format, lines: seq<string>, n: nat, x: RemoteInterface, y: RemoteInterface) {
    exists i :: 0 <= i < n && Gives(format, lines, i, x) && forall k :: 0 <= k <= i ==> !Gives(format, lines, k, y)
  }

  ghost predicate Records(format: Format, lines: seq<string>, n: nat, found: seq<RemoteInterface>) {
    && NoDuplicates(found)
    && (forall pair :: pair in found <==> GivenBy(format, lines, n, pair))
    && (forall p, q :: 0 <= p < q < |found| ==> GivenEarlier(format, lines, n, found[p], found[q]))
  }

  lemma RecordsNothingNew(format: Format, lines: seq<string>, n: nat, found: seq<RemoteInterface>)
    requires Records(format, lines, n, found) && forall pair :: !Gives(format, lines, n, pair)
    ensures Records(format, lines, n + 1, found)
  {
    hide Gives;
    forall pair ensures GivenBy(format, lines, n + 1, pair) <==> GivenBy(format, lines, n, pair) {
      if i :| 0 <= i < n + 1 && Gives(format, lines, i, pair) {
        assert i < n;
      }
    }
    forall p, q | 0 <= p < q < |found| ensures GivenEarlier(format, lines, n + 1, found[p], found[q]) {
      assert GivenEarlier(format, lines, n, found[p], found[q]);
    }
  }

  lemma RecordsOne(format: Format, lines: seq<string>, n: nat, found: seq<RemoteInterface>, new': RemoteInterface)
    requires Records(format, lines, n, found)
    requires forall pair :: Gives(format, lines, n, pair) <==> pair == new'
    ensures Records(format, lines, n + 1, PushUnique(found, new'))
  {
    hide Gives;
    var after := PushUnique(found, new');
    forall pair ensures pair in after <==> GivenBy(format, lines, n + 1, pair) {
      if i :| 0 <= i < n + 1 && Gives(format, lines, i, pair) {
        assert i < n ==> GivenBy(format, lines, n, pair);
      }
      if GivenBy(format, lines, n, pair) {
        var i :| 0 <= i < n && Gives(format, lines, i, pair);
      }
      if pair == new' {
        assert Gives(format, lines, n, pair);
      }
    }
    forall p, q | 0 <= p < q < |after| ensures GivenEarlier(format, lines, n + 1, after[p], after[q]) {
      if q < |found| {
        assert GivenEarlier(format, lines, n, found[p], found[q]);
      } else {
        assert after[p] in found && !GivenBy(format, lines, n, new');
        assert GivenBy(format, lines, n, after[p]);
      }
    }
  }

  /** One line, as both parsers treat it. */
  lemma LineEffect(format: Format, state: State, line: string)
    ensures var after := AfterLine(format, state, line);
            && after.current == (if OpensBlock(format, line) then BlockName(format, line) else state.current)
            && after.found == if format.IpAddr? && OpensBlock(format, line) then state.found
                              else Appended(state.found, after.current, InetAddress(line))
  {
    hide OpensBlock, InetAddress, BlockName;
  }

  /** The current name is that of the block that the lines so far end in. */
  ghost predicate IsCurrent(format: Format, lines: seq<string>, n: nat, current: string)
    requires n <= |lines|
  {
    forall name :: name != "" ==> (InBlock(format, lines, n, name) <==> name == current)
  }

  lemma CurrentStep(format: Format, lines: seq<string>, n: nat, current: string)
    requires n < |lines| && IsCurrent(format, lines, n, current)
    ensures IsCurrent(format, lines, n + 1,
                      if OpensBlock(format, lines[n]) then BlockName(format, lines[n]) else current)
  {
    hide OpensBlock, Opens, NormalizeName, IsNameOf;
    OpensIff(format, lines[n]);
    var tokens, i := Tokens(lines[n]), if format.Ifconfig? then 0 else 1;
    forall name ensures BlockName(format, lines[n]) == name <==> IsBlockNamed(format, lines[n], name) {
      NameIff(if i < |tokens| then tokens[i] else "", name);
    }
    forall name ensures InBlock(format, lines, n + 1, name) <==>
        if Opens(format, lines[n]) then IsBlockNamed(format, lines[n], name) else InBlock(format, lines, n, name)
    {
      BlockStep(format, lines, n, name);
    }
    var after := if OpensBlock(format, lines[n]) then BlockName(format, lines[n]) else current;
    var m := n + 1;
    forall name | name != "" ensures InBlock(format, lines, m, name) <==> name == after {
      assert InBlock(format, lines, n, name) <==> name == current;
    }
  }

  lemma BlockStep(format: Format, lines: seq<string>, n: nat, name: string)
    requires n < |lines|
    ensures InBlock(format, lines, n + 1, name) <==>
      if Opens(format, lines[n]) then IsBlockNamed(format, lines[n], name) else InBlock(format, lines, n, name)
  {
    hide Opens, IsBlockNamed;
    if InBlock(format, lines, n + 1, name) {
      var j :| 0 <= j < n + 1 && Opens(format, lines[j]) && IsBlockNamed(format, lines[j], name)
               && forall m :: j < m < n + 1 ==> !Opens(format, lines[m]);
      assert j < n ==> !Opens(format, lines[n]);
    }
    if !Opens(format, lines[n]) && InBlock(format, lines, n, name) {
      var j :| 0 <= j < n && Opens(format, lines[j]) && IsBlockNamed(format, lines[j], name)
               && forall m :: j < m < n ==> !Opens(format, lines[m]);
      assert forall m :: j < m < n + 1 ==> !Opens(format, lines[m]);
    }
  }

  lemma GivesIff(format: Format, lines: seq<string>, n: nat, current: string, pair: RemoteInterface)
    requires n < |lines| && IsCurrent(format, lines, n + 1, current)
    ensures Gives(format, lines, n, pair) <==>
      && !(format.IpAddr? && OpensBlock(format, lines[n]))
      && current != "" && InetAddress(lines[n]) != "" && current != "lo" && current != "lo0"
      && pair == RemoteInterface(current, InetAddress(lines[n]))
  {
    hide OpensBlock, Opens, InetAddress, Announces, InBlock;
    OpensIff(format, lines[n]);
    AnnouncesIff(lines[n], pair.ipv4);
  }

  lemma RecordsStep(format: Format, lines: seq<string>, n: nat, state: State)
    requires n < |lines| && Records(format, lines, n, state.found) && IsCurrent(format, lines, n, state.current)
    ensures var after := AfterLine(format, state, lines[n]);
            Records(format, lines, n + 1, after.found) && IsCurrent(format, lines, n + 1, after.current)
  {
    hide OpensBlock, InetAddress, BlockName, IsCurrent, Records, Gives, AfterLine;
    var after := AfterLine(format, state, lines[n]);
    LineEffect(format, state, lines[n]);
    CurrentStep(format, lines, n, state.current);
    var new' := RemoteInterface(after.current, InetAddress(lines[n]));
    forall pair ensures Gives(format, lines, n, pair) <==>
      && !(format.IpAddr? && OpensBlock(format, lines[n]))
      && after.current != "" && InetAddress(lines[n]) != "" && after.current != "lo" && after.current != "lo0"
      && pair == new'
    {
      GivesIff(format, lines, n, after.current, pair);
    }
    if Gives(format, lines, n, new') {
      RecordsOne(format, lines, n, state.found, new');
    } else {
      RecordsNothingNew(format, lines, n, state.found);
    }
  }

  lemma {:induction false} RecordsUpTo(format: Format, lines: seq<string>, n: nat)
    requires n <= |lines|
    ensures var state := AfterLines(format, State("", []), lines[..n]);
            Records(format, lines, n, state.found) && IsCurrent(format, lines, n, state.current)
  {
    hide AfterLine;
    if n > 0 {
      RecordsUpTo(format, lines, n - 1);
      var before := AfterLines(format, State("", []), lines[..n - 1]);
      assert lines[..n] == lines[..n - 1] + [lines[n - 1]];
      AfterLinesConcat(format, State("", []), lines[..n - 1], [lines[n - 1]]);
      OneLine(format, before, lines[n - 1]);
      RecordsStep(format, lines, n - 1, before);
    } else {
      assert lines[..0] == [];
    }
  }

  lemma OneLine(format: Format, state: State, line: string)
    ensures AfterLines(format, state, [line]) == AfterLine(format, state, line)
  {
    hide AfterLine;
    assert [line][1..] == [];
    var after := AfterLine(format, state, line);
    assert AfterLines(format, after, []) == after;
  }

  /** For every text and both parsers: the result holds exactly the pairs that some line gives, each once, and
      in the order in which lines first give them. */
  lemma ParsedPairs(format: Format, output: string)
    ensures NoDuplicates(Parsed(format, output))
    ensures forall pair :: pair in Parsed(format, output) <==> GivenBy(format, Lines(output), |Lines(output)|, pair)
    ensures forall p, q :: 0 <= p < q < |Parsed(format, output)| ==>
      GivenEarlier(format, Lines(output), |Lines(output)|, Parsed(format, output)[p], Parsed(format, output)[q])
  {
    hide Gives;
    var lines := Lines(output);
    RecordsUpTo(format, lines, |lines|);
    assert lines[..|lines|] == lines;
  }

  /** In particular no loopback interface is ever returned. */
  lemma NoLoopback(format: Format, output: string, pair: RemoteInterface)
    requires pair in Parsed(format, output)
    ensures pair.name != "lo" && pair.name != "lo0"
  {
    ParsedPairs(format, output);
  }
}
