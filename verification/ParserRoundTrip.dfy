/** The three texts that the parsers are made for, written by a printer and read back. */
module ParserRoundTrip {
  import opened Wrappers
  import opened Text
  import opened Ipv4
  import opened Sequences
  import opened IfconfigParser
  import opened ParserProperties
  import opened ParserMeaning

  datatype Dialect = NetTools | BusyBox | IpFour

  function FormatOf(d: Dialect): Format {
    if d.IpFour? then IpAddr else Ifconfig
  }

  /** The tail of an address line is what follows the address: a prefix length, other fields, nothing. */
  datatype Entry = Address(ip: u32, tail: string) | Filler(text: string) | Blank

  /** `rest` is what follows the name on the opening line; `index` and `peer` are printed by `ip` only,
      as in `7: veth0@if12: <...>`. */
  datatype Block = Block(name: string, index: string, peer: string, rest: string, entries: seq<Entry>)

  // The printer

  function Indent(d: Dialect): string {
    match d
    case NetTools => "        "
    case BusyBox => "          "
    case IpFour => "    "
  }

  function AddressLabel(d: Dialect): string {
    if d.BusyBox? then "addr:" else ""
  }

  function Header(d: Dialect, b: Block): string {
    match d
    case NetTools => b.name + ":" + b.rest
    case BusyBox => b.name + b.rest
    case IpFour => b.index + ":" + (" " + (b.name + b.peer + ":" + b.rest))
  }

  function EntryLine(d: Dialect, e: Entry): string {
    match e
    case Address(ip, tail) => Indent(d) + ("inet" + (" " + (AddressLabel(d) + InetNtop(ip) + tail)))
    case Filler(text) => Indent(d) + text
    case Blank => ""
  }

  function EntryLines(d: Dialect, entries: seq<Entry>): seq<string> {
    if entries == [] then [] else [EntryLine(d, entries[0])] + EntryLines(d, entries[1..])
  }

  function BlockLines(d: Dialect, blocks: seq<Block>): seq<string> {
    if blocks == [] then []
    else [Header(d, blocks[0])] + (EntryLines(d, blocks[0].entries) + BlockLines(d, blocks[1..]))
  }

  function Printed(d: Dialect, blocks: seq<Block>): string {
    Unlines(BlockLines(d, blocks))
  }

  // What has to come back

  function EntryPairs(name: string, entries: seq<Entry>): seq<RemoteInterface> {
    if entries == [] then []
    else
      (if entries[0].Address? then [RemoteInterface(name, InetNtop(entries[0].ip))] else [])
      + EntryPairs(name, entries[1..])
  }

  ghost predicate IsLo(name: string) {
    name == "lo" || name == "lo0"
  }

  /** The pairs that a block adds. */
  ghost function Added(name: string, entries: seq<Entry>): seq<RemoteInterface> {
    if IsLo(name) then [] else EntryPairs(name, entries)
  }

  /** The (name, address) pairs in order, without those of loopback interfaces. */
  ghost function Pairs(blocks: seq<Block>): seq<RemoteInterface> {
    if blocks == [] then []
    else
      Added(blocks[0].name, blocks[0].entries) + Pairs(blocks[1..])
  }

  // Well-formed input

  ghost predicate IsName(name: string) {
    name != "" && NoSpace(name) && '@' !in name && name[|name| - 1] != ':'
  }

  /** No token announces an address, apart from the bare `addr:` of BusyBox's IPv6 lines. */
  ghost predicate AnnouncesNothing(tokens: seq<string>) {
    forall k :: 0 <= k < |tokens| ==> tokens[k] != "inet" && (StartsWith(tokens[k], "addr:") ==> tokens[k] == "addr:")
  }

  ghost predicate IsEntry(d: Dialect, e: Entry) {
    match e
    case Address(_, tail) => '\n' !in tail && (EmptyOrSpaced(tail) || tail[0] == '/')
    case Filler(text) =>
      && '\n' !in text && AnnouncesNothing(Tokens(text))
      && (d.IpFour? ==> !Opens(IpAddr, text))
    case Blank => true
  }

  ghost predicate IsBlock(d: Dialect, b: Block) {
    && IsName(b.name)
    && EmptyOrSpaced(b.rest) && '\n' !in b.rest
    && (!d.IpFour? ==> !IsMark(b.name) && AnnouncesNothing(Tokens(b.rest)))
    && (d.IpFour? ==>
          && b.index != "" && (forall i :: 0 <= i < |b.index| ==> IsDigit(b.index[i]))
          && NoSpace(b.peer) && (b.peer == "" || b.peer[0] == '@'))
    && forall i :: 0 <= i < |b.entries| ==> IsEntry(d, b.entries[i])
  }

  ghost predicate AreBlocks(d: Dialect, blocks: seq<Block>) {
    forall i :: 0 <= i < |blocks| ==> IsBlock(d, blocks[i])
  }

  // Single tokens and lines

  lemma JudgedQuad(ip: u32, suffix: string)
    requires suffix == "" || suffix[0] == '/'
    ensures Judged(InetNtop(ip) + suffix) == InetNtop(ip)
    ensures Judged("addr:" + (InetNtop(ip) + suffix)) == InetNtop(ip)
  {
    QuadShape(ip);
    CStringWithoutNul(InetNtop(ip));
    NtopThenPton(ip);
    QuadUpToSlash(InetNtop(ip), suffix);
  }

  lemma QuadUpToSlash(quad: string, suffix: string)
    requires suffix == "" || suffix[0] == '/'
    requires quad != "" && '/' !in quad && 'a' !in quad && IsValidIpv4(quad)
    ensures Judged(quad + suffix) == quad
    ensures Judged("addr:" + (quad + suffix)) == quad
  {
    hide IsValidIpv4;
    FindConcat(quad, suffix, '/');
    assert (quad + suffix)[..|quad|] == quad;
    assert (quad + suffix)[0] == quad[0] && quad[0] in quad;
    assert ("addr:" + (quad + suffix))[5..] == quad + suffix;
  }

  lemma {:induction false} NothingAnnounced(tokens: seq<string>)
    requires AnnouncesNothing(tokens)
    ensures AddressOf(tokens) == ""
  {
    hide IsValidIpv4;
    if tokens != [] {
      if StartsWith(tokens[0], "addr:") {
        assert tokens[0][5..] == "";
        NothingIsNoAddress();
      } else {
        NothingAnnounced(tokens[1..]);
      }
    }
  }

  lemma NothingIsNoAddress()
    ensures Judged("") == ""
  {
    assert WithoutAddrPrefix("") == "";
  }

  lemma SpaceOnly(d: Dialect)
    ensures AllSpace(Indent(d)) && Indent(d) != "" && IsSpace(Indent(d)[0])
    ensures forall i :: 0 <= i < |Indent(d)| ==> IsTrimmed(Indent(d)[i])
  {
  }

  /** Splits a tail into what sticks to the address and what is a field of its own. */
  lemma SplitTail(tail: string) returns (suffix: string, fields: string)
    requires EmptyOrSpaced(tail) || tail[0] == '/'
    ensures tail == suffix + fields && NoSpace(suffix) && EmptyOrSpaced(fields)
    ensures suffix == "" || suffix[0] == '/'
  {
    var n := WordLength(tail);
    suffix, fields := tail[..n], tail[n..];
  }

  lemma AddressLineTokens(d: Dialect, ip: u32, suffix: string, fields: string)
    requires NoSpace(suffix) && EmptyOrSpaced(fields)
    ensures Tokens(EntryLine(d, Address(ip, suffix + fields)))
         == ["inet", AddressLabel(d) + (InetNtop(ip) + suffix)] + Tokens(fields)
  {
    hide InetNtop;
    hide Tokens;
    hide Indent;
    hide AddressLabel;
    var quad, word := InetNtop(ip), AddressLabel(d) + (InetNtop(ip) + suffix);
    QuadShape(ip);
    SpaceOnly(d);
    LabelHasNoSpace(d, quad + suffix);
    TokensOfFields(Indent(d), word, fields);
    Regroup(AddressLabel(d), quad, suffix, fields);
  }

  lemma Regroup(a: string, b: string, c: string, d: string)
    ensures a + b + (c + d) == a + (b + c) + d
  {
  }

  lemma LabelHasNoSpace(d: Dialect, word: string)
    requires NoSpace(word)
    ensures NoSpace(AddressLabel(d) + word)
  {
    assert NoSpace("addr:");
  }

  lemma TokensOfFields(indent: string, word: string, fields: string)
    requires AllSpace(indent) && word != "" && NoSpace(word) && EmptyOrSpaced(fields)
    ensures Tokens(indent + ("inet" + (" " + (word + fields)))) == ["inet", word] + Tokens(fields)
  {
    hide Tokens;
    assert IsSpace((" " + (word + fields))[0]);
    TokensAfterSpace(indent, "inet" + (" " + (word + fields)));
    TokensWord("inet", " " + (word + fields));
    TokensAfterSpace(" ", word + fields);
    TokensWord(word, fields);
  }

  lemma AddressLineRead(d: Dialect, ip: u32, tail: string)
    requires EmptyOrSpaced(tail) || tail[0] == '/'
    ensures InetAddress(EntryLine(d, Address(ip, tail))) == InetNtop(ip) && InetNtop(ip) != ""
  {
    hide InetNtop;
    hide EntryLine;
    hide Judged;
    var suffix, fields := SplitTail(tail);
    AddressLineTokens(d, ip, suffix, fields);
    JudgedQuad(ip, suffix);
    QuadShape(ip);
    assert "" + (InetNtop(ip) + suffix) == InetNtop(ip) + suffix;
  }

  /** The lines inside a block are indented, and none of them opens another one. */
  lemma EntryOpensNothing(d: Dialect, e: Entry)
    requires IsEntry(d, e)
    ensures !OpensBlock(FormatOf(d), EntryLine(d, e))
  {
    hide InetNtop;
    SpaceOnly(d);
    if d.IpFour? && !e.Blank? {
      var text := if e.Address? then "inet" + (" " + (AddressLabel(d) + InetNtop(e.ip) + e.tail)) else e.text;
      TrimIndent(Indent(d), text);
      if e.Address? {
        TrimFront(text);
      } else {
        OpensIff(IpAddr, text);
      }
    }
  }

  lemma {:induction false} TrimIndent(indent: string, text: string)
    requires forall i :: 0 <= i < |indent| ==> IsTrimmed(indent[i])
    ensures Trim(indent + text) == Trim(text)
  {
    if indent == "" {
      assert indent + text == text;
    } else {
      assert (indent + text)[0] == indent[0] && (indent + text)[1..] == indent[1..] + text;
      TrimIndent(indent[1..], text);
    }
  }

  lemma TrimFront(text: string)
    requires text != "" && !IsTrimmed(text[0])
    ensures Trim(text) != "" && Trim(text)[0] == text[0]
  {
    TrimKeeps(text, text[0]);
    var after := TrimRightParts(text);
  }

  lemma EntryRead(d: Dialect, state: State, e: Entry)
    requires IsEntry(d, e) && state.current != ""
    ensures AfterLine(FormatOf(d), state, EntryLine(d, e))
         == if e.Address? then state.(found := Appended(state.found, state.current, InetNtop(e.ip))) else state
  {
    hide InetNtop;
    hide OpensBlock;
    hide AddressOf;
    EntryOpensNothing(d, e);
    match e
    case Address(ip, tail) => AddressLineRead(d, ip, tail);
    case Filler(text) =>
      SpaceOnly(d);
      TokensAfterSpace(Indent(d), text);
      NothingAnnounced(Tokens(text));
    case Blank => BlankLine(FormatOf(d), state, "");
  }

  // Opening lines

  lemma NameRead(name: string, peer: string)
    requires IsName(name) && (peer == "" || peer[0] == '@')
    ensures NormalizeName(name + peer + ":") == name
    ensures NormalizeName(name) == name
  {
    assert (name + peer + ":")[..|name + peer|] == name + peer;
    FindConcat(name, peer, '@');
    FindConcat(name, "", '@');
    assert name + "" == name && (name + peer)[..|name|] == name;
  }

  lemma IfconfigHeaderRead(state: State, name: string, colon: string, rest: string)
    requires IsName(name) && !IsMark(name)
    requires EmptyOrSpaced(rest) && AnnouncesNothing(Tokens(rest)) && (colon == "" || colon == ":")
    ensures AfterLine(Ifconfig, state, name + colon + rest) == state.(current := name)
  {
    hide AddressOf;
    hide NormalizeName;
    hide Appended;
    var line := name + colon + rest;
    TokensWord(name + colon, rest);
    hide Tokens;
    NameRead(name, "");
    assert name + "" == name;
    assert name + colon + rest == (name + colon) + rest;
    assert line[0] == name[0];
    FirstTokenAnnouncesNothing(name, colon);
    NothingAnnounced([name + colon] + Tokens(rest));
  }

  lemma FirstTokenAnnouncesNothing(name: string, colon: string)
    requires IsName(name) && !IsMark(name) && (colon == "" || colon == ":")
    ensures AnnouncesNothing([name + colon])
  {
    var token := name + colon;
    assert colon == "" ==> token == name;
    assert colon == ":" ==> token[|token| - 1] == ':' && token[..|name|] == name;
  }

  lemma IpHeaderOpens(index: string, tail: string)
    requires index != "" && IsDigit(index[0])
    ensures OpensBlock(IpAddr, index + ":" + (" " + tail))
  {
    var line := index + ":" + (" " + tail);
    assert line[0] == index[0] && line[|index|] == ':';
    TrimKeeps(line, ':');
    TrimFront(line);
  }

  lemma IpHeaderTokens(index: string, word: string, rest: string)
    requires NoSpace(index) && word != "" && NoSpace(word) && EmptyOrSpaced(rest)
    ensures Tokens(index + ":" + (" " + (word + rest))) == [index + ":", word] + Tokens(rest)
  {
    hide Tokens;
    assert IsSpace((" " + (word + rest))[0]);
    TokensWord(index + ":", " " + (word + rest));
    TokensAfterSpace(" ", word + rest);
    TokensWord(word, rest);
  }

  lemma IpHeaderRead(state: State, b: Block)
    requires IsBlock(IpFour, b)
    ensures AfterLine(IpAddr, state, Header(IpFour, b)) == state.(current := b.name)
  {
    hide OpensBlock;
    hide Tokens;
    hide NormalizeName;
    var word := b.name + b.peer + ":";
    IpHeaderOpens(b.index, b.name + b.peer + ":" + b.rest);
    IpHeaderTokens(b.index, word, b.rest);
    NameRead(b.name, b.peer);
    assert Tokens(Header(IpFour, b))[1] == word;
  }

  lemma HeaderRead(d: Dialect, state: State, b: Block)
    requires IsBlock(d, b)
    ensures AfterLine(FormatOf(d), state, Header(d, b)) == state.(current := b.name)
  {
    hide AfterLine;
    match d
    case NetTools => IfconfigHeaderRead(state, b.name, ":", b.rest);
    case BusyBox =>
      IfconfigHeaderRead(state, b.name, "", b.rest);
      assert b.name + "" + b.rest == b.name + b.rest;
    case IpFour => IpHeaderRead(state, b);
  }

  // Blocks and texts

  lemma AppendedToDistinct(before: seq<RemoteInterface>, name: string, ipv4: string)
    requires name != "" && ipv4 != ""
    ensures Appended(Distinct(before), name, ipv4)
         == if IsLo(name) then Distinct(before) else Distinct(before + [RemoteInterface(name, ipv4)])
  {
    DistinctSnoc(before, RemoteInterface(name, ipv4));
  }

  lemma AddedStep(before: seq<RemoteInterface>, name: string, entries: seq<Entry>)
    requires entries != []
    ensures var first := if entries[0].Address? && !IsLo(name)
                         then [RemoteInterface(name, InetNtop(entries[0].ip))] else [];
            before + Added(name, entries) == before + first + Added(name, entries[1..])
  {
    hide InetNtop;
    var first := if entries[0].Address? && !IsLo(name)
                 then [RemoteInterface(name, InetNtop(entries[0].ip))] else [];
    assert Added(name, entries) == first + Added(name, entries[1..]);
    RegroupPairs(before, first, Added(name, entries[1..]));
  }

  lemma RegroupPairs(a: seq<RemoteInterface>, b: seq<RemoteInterface>, c: seq<RemoteInterface>)
    ensures a + (b + c) == a + b + c
  {
  }

  lemma {:induction false} EntriesRead(
      d: Dialect, name: string, entries: seq<Entry>, before: seq<RemoteInterface>)
    requires name != "" && forall i :: 0 <= i < |entries| ==> IsEntry(d, entries[i])
    ensures AfterLines(FormatOf(d), State(name, Distinct(before)), EntryLines(d, entries))
         == State(name, Distinct(before + Added(name, entries)))
    decreases |entries|
  {
    hide AfterLine;
    hide InetNtop;
    hide EntryLine;
    hide Distinct;
    hide Appended;
    if entries == [] {
      assert before + Added(name, entries) == before;
    } else {
      var state := State(name, Distinct(before));
      EntryRead(d, state, entries[0]);
      AddedStep(before, name, entries);
      assert EntryLines(d, entries)[1..] == EntryLines(d, entries[1..]);
      hide EntryPairs;
      if entries[0].Address? {
        QuadShape(entries[0].ip);
        AppendedToDistinct(before, name, InetNtop(entries[0].ip));
      }
      var first := if entries[0].Address? && !IsLo(name)
                   then [RemoteInterface(name, InetNtop(entries[0].ip))] else [];
      assert first == [] ==> before + first == before;
      EntriesRead(d, name, entries[1..], before + first);
    }
  }

  lemma {:induction false} BlocksRead(
      d: Dialect, blocks: seq<Block>, current: string, before: seq<RemoteInterface>)
    requires AreBlocks(d, blocks)
    ensures AfterLines(FormatOf(d), State(current, Distinct(before)), BlockLines(d, blocks)).found
         == Distinct(before + Pairs(blocks))
    decreases |blocks|
  {
    hide AfterLine;
    hide Header;
    hide EntryLines;
    hide Distinct;
    hide Added;
    if blocks == [] {
      assert before + [] == before;
    } else {
      assert IsBlock(d, blocks[0]);
      hide IsBlock;
      var b, rest := blocks[0], BlockLines(d, blocks[1..]);
      var all := EntryLines(d, b.entries) + rest;
      assert BlockLines(d, blocks)[1..] == all;
      RegroupPairs(before, Added(b.name, b.entries), Pairs(blocks[1..]));
      BlockRead(d, b, current, before, rest);
      BlocksRead(d, blocks[1..], b.name, before + Added(b.name, b.entries));
    }
  }

  lemma BlockRead(d: Dialect, b: Block, current: string, before: seq<RemoteInterface>, rest: seq<string>)
    requires IsBlock(d, b)
    ensures AfterLines(FormatOf(d), State(current, Distinct(before)),
                       [Header(d, b)] + (EntryLines(d, b.entries) + rest))
         == AfterLines(FormatOf(d), State(b.name, Distinct(before + Added(b.name, b.entries))), rest)
  {
    hide AfterLine;
    hide Header;
    hide EntryLines;
    hide Distinct;
    hide Added;
    var state, all := State(current, Distinct(before)), EntryLines(d, b.entries) + rest;
    HeaderRead(d, state, b);
    assert ([Header(d, b)] + all)[1..] == all;
    AfterLinesConcat(FormatOf(d), State(b.name, Distinct(before)), EntryLines(d, b.entries), rest);
    EntriesRead(d, b.name, b.entries, before);
  }

  lemma NoSpaceNoNewline(s: string)
    requires NoSpace(s)
    ensures '\n' !in s
  {
    assert IsSpace('\n');
  }

  lemma HeaderHasNoNewline(d: Dialect, b: Block)
    requires IsBlock(d, b)
    ensures '\n' !in Header(d, b)
  {
    NoSpaceNoNewline(b.name);
    if d.IpFour? {
      NoSpaceNoNewline(b.peer);
      assert '\n' !in b.index;
    }
  }

  lemma EntryHasNoNewline(d: Dialect, e: Entry)
    requires IsEntry(d, e)
    ensures '\n' !in EntryLine(d, e)
  {
    hide InetNtop;
    if e.Address? {
      QuadShape(e.ip);
      NoSpaceNoNewline(InetNtop(e.ip));
      AddressLineHasNoNewline(Indent(d), AddressLabel(d), InetNtop(e.ip), e.tail);
    }
  }

  lemma AddressLineHasNoNewline(indent: string, prefix: string, quad: string, tail: string)
    requires '\n' !in indent && '\n' !in prefix && '\n' !in quad && '\n' !in tail
    ensures '\n' !in indent + ("inet" + (" " + (prefix + quad + tail)))
  {
    assert '\n' !in prefix + quad + tail;
    assert '\n' !in "inet" + (" " + (prefix + quad + tail));
  }

  lemma {:induction false} EntriesHaveNoNewline(d: Dialect, entries: seq<Entry>)
    requires forall i :: 0 <= i < |entries| ==> IsEntry(d, entries[i])
    ensures NoNewlines(EntryLines(d, entries))
  {
    hide EntryLine;
    if entries != [] {
      EntryHasNoNewline(d, entries[0]);
      EntriesHaveNoNewline(d, entries[1..]);
    }
  }

  lemma {:induction false} BlocksHaveNoNewline(d: Dialect, blocks: seq<Block>)
    requires AreBlocks(d, blocks)
    ensures NoNewlines(BlockLines(d, blocks))
  {
    hide Header;
    hide EntryLines;
    if blocks != [] {
      assert IsBlock(d, blocks[0]);
      HeaderHasNoNewline(d, blocks[0]);
      EntriesHaveNoNewline(d, blocks[0].entries);
      BlocksHaveNoNewline(d, blocks[1..]);
    }
  }

  /** In each dialect, parsing what was printed gives exactly the (name, address) pairs in order, without
      loopback interfaces and without repetitions. */
  lemma PrintedThenParsed(d: Dialect, blocks: seq<Block>)
    requires AreBlocks(d, blocks)
    ensures Parsed(FormatOf(d), Printed(d, blocks)) == Distinct(Pairs(blocks))
  {
    hide AfterLines;
    hide BlockLines;
    hide Lines;
    hide Unlines;
    BlocksHaveNoNewline(d, blocks);
    LinesOfUnlines(BlockLines(d, blocks));
    BlocksRead(d, blocks, "", []);
    assert [] + Pairs(blocks) == Pairs(blocks);
    assert Distinct<RemoteInterface>([]) == [];
  }

  lemma {:induction false} EntryPairsElements(name: string, entries: seq<Entry>, pair: RemoteInterface)
    ensures pair in EntryPairs(name, entries) <==>
      pair.name == name && exists k :: 0 <= k < |entries| && entries[k].Address? && InetNtop(entries[k].ip) == pair.ipv4
  {
    hide InetNtop;
    if entries != [] {
      EntryPairsElements(name, entries[1..], pair);
      assert forall k :: 0 < k < |entries| ==> entries[k] == entries[1..][k - 1];
      if pair in EntryPairs(name, entries[1..]) {
        var k :| 0 <= k < |entries[1..]| && entries[1..][k].Address? && InetNtop(entries[1..][k].ip) == pair.ipv4;
        assert entries[k + 1].Address?;
      }
    }
  }

  ghost predicate BlockHolds(b: Block, name: string, text: string) {
    b.name == name && exists k :: 0 <= k < |b.entries| && b.entries[k].Address? && InetNtop(b.entries[k].ip) == text
  }

  lemma {:induction false} PairsElements(blocks: seq<Block>, pair: RemoteInterface)
    ensures pair in Pairs(blocks) <==>
      && pair.name != "lo" && pair.name != "lo0"
      && exists i :: 0 <= i < |blocks| && BlockHolds(blocks[i], pair.name, pair.ipv4)
  {
    hide InetNtop, EntryPairs;
    if blocks != [] {
      PairsElements(blocks[1..], pair);
      EntryPairsElements(blocks[0].name, blocks[0].entries, pair);
      hide BlockHolds;
      if i :| 0 <= i < |blocks[1..]| && BlockHolds(blocks[1..][i], pair.name, pair.ipv4) {
        assert BlockHolds(blocks[i + 1], pair.name, pair.ipv4);
      }
      if i :| 0 <= i < |blocks| && BlockHolds(blocks[i], pair.name, pair.ipv4) {
        assert i > 0 ==> BlockHolds(blocks[1..][i - 1], pair.name, pair.ipv4);
      }
      FirstBlockHolds(blocks[0], pair);
    }
  }

  lemma FirstBlockHolds(b: Block, pair: RemoteInterface)
    ensures pair in Added(b.name, b.entries) <==>
      pair.name != "lo" && pair.name != "lo0" && BlockHolds(b, pair.name, pair.ipv4)
  {
    hide InetNtop;
    EntryPairsElements(b.name, b.entries, pair);
  }

  /** A pair is read if and only if a block of that name, no loopback interface, holds the address. */
  lemma ReadIffPrinted(d: Dialect, blocks: seq<Block>, name: string, text: string)
    requires AreBlocks(d, blocks)
    ensures RemoteInterface(name, text) in Parsed(FormatOf(d), Printed(d, blocks)) <==>
      && name != "lo" && name != "lo0"
      && exists i, k ::
        && 0 <= i < |blocks| && blocks[i].name == name
        && 0 <= k < |blocks[i].entries| && blocks[i].entries[k].Address? && InetNtop(blocks[i].entries[k].ip) == text
  {
    hide Parsed, Printed, Pairs, InetNtop, AreBlocks;
    PrintedThenParsed(d, blocks);
    DistinctElements(Pairs(blocks));
    PairsElements(blocks, RemoteInterface(name, text));
    if i :| 0 <= i < |blocks| && BlockHolds(blocks[i], name, text) {
      var k :| 0 <= k < |blocks[i].entries| && blocks[i].entries[k].Address?
               && InetNtop(blocks[i].entries[k].ip) == text;
    }
    if i, k :| 0 <= i < |blocks| && blocks[i].name == name
               && 0 <= k < |blocks[i].entries| && blocks[i].entries[k].Address?
               && InetNtop(blocks[i].entries[k].ip) == text {
      assert BlockHolds(blocks[i], name, text);
    }
  }

  /** Two devices with the same pairs look the same, whichever dialects they speak and whatever else
      their output says. */
  lemma DialectsAgree(d1: Dialect, blocks1: seq<Block>, d2: Dialect, blocks2: seq<Block>)
    requires AreBlocks(d1, blocks1) && AreBlocks(d2, blocks2) && Pairs(blocks1) == Pairs(blocks2)
    ensures Parsed(FormatOf(d1), Printed(d1, blocks1)) == Parsed(FormatOf(d2), Printed(d2, blocks2))
  {
    PrintedThenParsed(d1, blocks1);
    PrintedThenParsed(d2, blocks2);
  }

  /** The address check stops at a NUL, so outside NUL-free text it lets through what is no dotted quad:
      here anything that follows the NUL, up to a space or slash, is returned with the address. */
  lemma NulSurvives(ip: u32, junk: string)
    requires NoSpace(junk) && '/' !in junk
    ensures var word := InetNtop(ip) + "\0" + junk;
            && Parsed(Ifconfig, "e inet " + word) == [RemoteInterface("e", word)]
            && forall x: u32 :: word != InetNtop(x)
  {
    hide InetNtop;
    var quad, word := InetNtop(ip), InetNtop(ip) + "\0" + junk;
    QuadShape(ip);
    NulWord(quad, junk);
    NtopThenPton(ip);
    NulWordJudged(quad, junk, ip);
    NulLine(word);
    forall x: u32 ensures word != InetNtop(x) {
      QuadShape(x);
      assert word[|quad|] == '\0';
    }
  }

  lemma NulWord(quad: string, junk: string)
    requires NoSpace(quad) && NoSpace(junk)
    ensures NoSpace(quad + "\0" + junk)
  {
  }

  lemma NulWordJudged(quad: string, junk: string, ip: u32)
    requires quad != "" && '/' !in quad && '/' !in junk && '\0' !in quad && 'a' !in quad
    requires InetPton(quad) == Some(ip)
    ensures Judged(quad + "\0" + junk) == quad + "\0" + junk
  {
    hide InetPton;
    var word := quad + "\0" + junk;
    assert word == quad + ("\0" + junk);
    FindConcat(quad, "\0" + junk, '\0');
    assert CString(word) == quad;
    assert '/' !in word;
    FindConcat(word, "", '/');
    assert word + "" == word && word[..|word|] == word;
    assert word[0] == quad[0] && quad[0] in quad;
  }

  lemma NulLine(word: string)
    requires word != "" && NoSpace(word) && Judged(word) == word
    ensures Parsed(Ifconfig, "e inet " + word) == [RemoteInterface("e", word)]
  {
    hide Judged;
    hide AfterLine;
    hide Tokens;
    var line := "e inet " + word;
    NoSpaceNoNewline(word);
    assert '\n' !in line && line[0] == 'e';
    TextOfOneLine(Ifconfig, State("", []), line);
    assert line == "e" + (" " + ("inet" + (" " + (word + ""))));
    NulTokens(word);
    ThreeTokensRead(line, word);
  }

  lemma ThreeTokensRead(line: string, word: string)
    requires line != "" && line[0] == 'e' && Tokens(line) == ["e", "inet", word] && Judged(word) == word != ""
    ensures AfterLine(Ifconfig, State("", []), line) == State("e", [RemoteInterface("e", word)])
  {
    hide Judged;
    hide Tokens;
    NameRead("e", "");
    hide NormalizeName;
    assert AddressOf(["e", "inet", word]) == AddressOf(["inet", word]) by {
      assert ["e", "inet", word][1..] == ["inet", word];
    }
  }

  lemma NulTokens(word: string)
    requires word != "" && NoSpace(word)
    ensures Tokens("e" + (" " + ("inet" + (" " + (word + ""))))) == ["e", "inet", word]
  {
    assert Tokens("") == [];
    hide Tokens;
    TokensOfFields(" ", word, "");
    assert IsSpace((" " + ("inet" + (" " + (word + ""))))[0]);
    TokensWord("e", " " + ("inet" + (" " + (word + ""))));
  }
}
