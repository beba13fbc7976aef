/** What holds of both parsers on every text. */
module ParserProperties {
  import opened Text
  import opened Ipv4
  import opened Sequences
  import opened IfconfigParser

  // Splitting off the first line

  lemma FirstLineOfText(format: Format, state: State, line: string, rest: string)
    requires '\n' !in line
    ensures AfterText(format, state, line + "\n" + rest)
         == AfterText(format, AfterLine(format, state, line), rest)
  {
    hide AfterLine;
    assert line + "\n" + rest == line + ("\n" + rest);
    FindConcat(line, "\n" + rest, '\n');
    assert (line + "\n" + rest)[..|line|] == line && (line + "\n" + rest)[|line| + 1..] == rest;
  }

  lemma TextOfOneLine(format: Format, state: State, line: string)
    requires '\n' !in line && line != ""
    ensures AfterText(format, state, line) == AfterLine(format, state, line)
  {
    hide AfterLine;
    FindConcat(line, "", '\n');
    assert line + "" == line;
    assert Lines(line) == [line] && [line][1..] == [];
    var after := AfterLine(format, state, line);
    assert AfterLines(format, after, []) == after;
  }

  // Line endings

  /** Every line feed written as carriage return and line feed. */
  function WithCrlf(s: string): string {
    if s == "" then "" else (if s[0] == '\n' then "\r\n" else [s[0]]) + WithCrlf(s[1..])
  }

  lemma {:induction false} CrlfOfLine(line: string, rest: string)
    requires '\n' !in line
    ensures WithCrlf(line + rest) == line + WithCrlf(rest)
  {
    if line == "" {
      assert line + rest == rest;
    } else {
      assert line[0] in line;
      assert (line + rest)[1..] == line[1..] + rest;
      CrlfOfLine(line[1..], rest);
    }
  }

  lemma SameTokensSameEffect(format: Format, state: State, a: string, b: string)
    requires Tokens(a) == Tokens(b) && (OpensBlock(format, a) <==> OpensBlock(format, b))
    ensures AfterLine(format, state, a) == AfterLine(format, state, b)
  {
    hide OpensBlock;
    hide AddressOf;
    hide NormalizeName;
    hide Appended;
  }

  lemma CarriageReturnIgnored(format: Format, state: State, line: string)
    ensures AfterLine(format, state, line + "\r") == AfterLine(format, state, line)
  {
    hide AfterLine;
    TokensBeforeSpace(line, "\r");
    TrimCarriageReturn(line);
    assert line != "" ==> (line + "\r")[0] == line[0];
    SameTokensSameEffect(format, state, line + "\r", line);
  }

  lemma CrlfAfterLine(line: string, rest: string)
    requires '\n' !in line
    ensures WithCrlf(line + "\n" + rest) == (line + "\r") + "\n" + WithCrlf(rest)
  {
    assert line + "\n" + rest == line + ("\n" + rest);
    CrlfOfLine(line, "\n" + rest);
    assert ("\n" + rest)[1..] == rest;
  }

  /** For every text, either parser gives the same result whether its lines end in LF or in CRLF. */
  lemma {:induction false} LineEndingsIgnored(format: Format, state: State, text: string)
    ensures AfterText(format, state, WithCrlf(text)) == AfterText(format, state, text)
    decreases |text|
  {
    hide AfterLines;
    hide AfterLine;
    var i := Find(text, '\n');
    if i == |text| {
      CrlfOfLine(text, "");
      assert text + "" == text && WithCrlf("") == "";
    } else {
      var line, rest := text[..i], text[i + 1..];
      assert text == line + "\n" + rest;
      CrlfAfterLine(line, rest);
      FirstLineOfText(format, state, line + "\r", WithCrlf(rest));
      FirstLineOfText(format, state, line, rest);
      CarriageReturnIgnored(format, state, line);
      LineEndingsIgnored(format, AfterLine(format, state, line), rest);
    }
  }

  lemma ParsersIgnoreLineEndings(format: Format, output: string)
    ensures Parsed(format, WithCrlf(output)) == Parsed(format, output)
  {
    LineEndingsIgnored(format, State("", []), output);
  }

  // Composition

  lemma {:induction false} AfterLinesConcat(format: Format, state: State, a: seq<string>, b: seq<string>)
    ensures AfterLines(format, state, a + b) == AfterLines(format, AfterLines(format, state, a), b)
    decreases |a|
  {
    hide AfterLine;
    if a == [] {
      assert a + b == b;
    } else {
      assert (a + b)[1..] == a[1..] + b;
      AfterLinesConcat(format, AfterLine(format, state, a[0]), a[1..], b);
    }
  }

  lemma {:induction false} TextsConcat(format: Format, state: State, a: string, b: string)
    requires a == "" || a[|a| - 1] == '\n'
    ensures AfterText(format, state, a + b) == AfterText(format, AfterText(format, state, a), b)
    decreases |a|
  {
    hide AfterLine;
    if a == "" {
      assert a + b == b;
    } else {
      assert a[|a| - 1] in a && a[..|a|] == a;
      var i := Find(a, '\n');
      var line, rest := a[..i], a[i + 1..];
      assert a == line + "\n" + rest && a + b == line + "\n" + (rest + b);
      FirstLineOfText(format, state, line, rest);
      FirstLineOfText(format, state, line, rest + b);
      TextsConcat(format, AfterLine(format, state, line), rest, b);
    }
  }

  /** The first line with a visible character, if there is one, opens a block. */
  ghost predicate StartsWithBlock(format: Format, lines: seq<string>) {
    lines == [] ||
    (if AllSpace(lines[0]) then StartsWithBlock(format, lines[1..]) else OpensBlock(format, lines[0]))
  }

  lemma AddressAfterEarlier(earlier: seq<RemoteInterface>, state: State, line: string)
    ensures WithAddress(State(state.current, Union(earlier, state.found)), line)
         == State(state.current, Union(earlier, WithAddress(state, line).found))
  {
    hide InetAddress;
    UnionPush(earlier, state.found, RemoteInterface(state.current, InetAddress(line)));
  }

  lemma LineAfterEarlier(format: Format, earlier: seq<RemoteInterface>, state: State, line: string)
    ensures AfterLine(format, State(state.current, Union(earlier, state.found)), line)
         == State(AfterLine(format, state, line).current, Union(earlier, AfterLine(format, state, line).found))
  {
    hide WithAddress;
    hide OpensBlock;
    if OpensBlock(format, line) {
      if format.Ifconfig? {
        AddressAfterEarlier(earlier, State(BlockName(format, line), state.found), line);
      }
      AddressKeepsCurrent(State(BlockName(format, line), state.found), line);
    } else {
      AddressAfterEarlier(earlier, state, line);
      AddressKeepsCurrent(state, line);
    }
  }

  lemma AddressKeepsCurrent(state: State, line: string)
    ensures WithAddress(state, line).current == state.current
  {
    hide InetAddress;
  }

  lemma {:induction false} LinesAfterEarlier(
      format: Format, earlier: seq<RemoteInterface>, state: State, lines: seq<string>)
    ensures AfterLines(format, State(state.current, Union(earlier, state.found)), lines).found
         == Union(earlier, AfterLines(format, state, lines).found)
    decreases |lines|
  {
    hide AfterLine;
    if lines != [] {
      LineAfterEarlier(format, earlier, state, lines[0]);
      LinesAfterEarlier(format, earlier, AfterLine(format, state, lines[0]), lines[1..]);
    }
  }

  /** A line that opens a block forgets the block before it. */
  lemma OpeningForgets(format: Format, current: string, found: seq<RemoteInterface>, line: string)
    requires OpensBlock(format, line)
    ensures AfterLine(format, State(current, found), line) == AfterLine(format, State("", found), line)
  {
    hide WithAddress;
    hide OpensBlock;
  }

  lemma {:induction false} BlocksAfterEarlier(format: Format, state: State, lines: seq<string>)
    requires StartsWithBlock(format, lines)
    ensures AfterLines(format, state, lines).found
         == Union(state.found, AfterLines(format, State("", []), lines).found)
    decreases |lines|
  {
    hide AfterLine;
    hide OpensBlock;
    if lines != [] {
      if AllSpace(lines[0]) {
        BlankLine(format, state, lines[0]);
        BlankLine(format, State("", []), lines[0]);
        BlocksAfterEarlier(format, state, lines[1..]);
      } else {
        OpeningForgets(format, state.current, state.found, lines[0]);
        LinesAfterEarlier(format, state.found, State("", []), lines);
      }
    }
  }

  /** If `a` is empty or ends in a newline and the first visible line of `b` opens a block, parsing both
      together is parsing `a` followed by the pairs of `b` that are not there yet. */
  lemma ParsingIsCompositional(format: Format, a: string, b: string)
    requires a == "" || a[|a| - 1] == '\n'
    requires StartsWithBlock(format, Lines(b))
    ensures Parsed(format, a + b) == Union(Parsed(format, a), Parsed(format, b))
  {
    TextsConcat(format, State("", []), a, b);
    BlocksAfterEarlier(format, AfterText(format, State("", []), a), Lines(b));
  }

  // What the parsers return

  ghost predicate IsSound(pair: RemoteInterface, output: string) {
    && pair.name != "" && '@' !in pair.name && pair.name != "lo" && pair.name != "lo0"
    && IsValidIpv4(pair.ipv4) && OccursIn(pair.ipv4, output)
  }

  ghost predicate IsSoundState(state: State, output: string) {
    && '@' !in state.current
    && NoDuplicates(state.found)
    && forall i :: 0 <= i < |state.found| ==> IsSound(state.found[i], output)
  }

  lemma NormalizedHasNoAt(name: string)
    ensures '@' !in NormalizeName(name)
  {
  }

  lemma JudgedShape(candidate: string)
    ensures Judged(candidate) == "" || (IsValidIpv4(Judged(candidate)) && OccursIn(Judged(candidate), candidate))
  {
    hide IsValidIpv4;
    var c := WithoutAddrPrefix(candidate);
    var k := Find(c, '/');
    var from := if StartsWith(candidate, "addr:") then 5 else 0;
    assert c[..k] == candidate[from..from + k];
    SliceOccurs(candidate, from, from + k);
  }

  lemma {:induction false} AddressOfShape(tokens: seq<string>, line: string)
    requires forall k :: 0 <= k < |tokens| ==> OccursIn(tokens[k], line)
    ensures AddressOf(tokens) == "" || (IsValidIpv4(AddressOf(tokens)) && OccursIn(AddressOf(tokens), line))
  {
    hide IsValidIpv4;
    hide Judged;
    hide OccursIn;
    if tokens != [] {
      if tokens[0] == "inet" {
        if |tokens| > 1 {
          JudgedShape(tokens[1]);
          if Judged(tokens[1]) != "" {
            OccursTransitive(Judged(tokens[1]), tokens[1], line);
          }
        }
      } else if StartsWith(tokens[0], "addr:") {
        var candidate := tokens[0][5..];
        JudgedShape(candidate);
        if Judged(candidate) != "" {
          assert candidate == tokens[0][5..|tokens[0]|];
          SliceOccurs(tokens[0], 5, |tokens[0]|);
          OccursTransitive(candidate, tokens[0], line);
          OccursTransitive(Judged(candidate), candidate, line);
        }
      } else {
        AddressOfShape(tokens[1..], line);
      }
    }
  }

  lemma InetAddressShape(line: string)
    ensures InetAddress(line) == "" || (IsValidIpv4(InetAddress(line)) && OccursIn(InetAddress(line), line))
  {
    forall k | 0 <= k < |Tokens(line)| ensures OccursIn(Tokens(line)[k], line) {
      TokenShape(line, k);
    }
    AddressOfShape(Tokens(line), line);
  }

  lemma AddressKeepsSound(state: State, line: string, output: string)
    requires IsSoundState(state, output) && OccursIn(line, output)
    ensures IsSoundState(WithAddress(state, line), output)
  {
    hide IsValidIpv4;
    hide InetAddress;
    hide OccursIn;
    InetAddressShape(line);
    if InetAddress(line) != "" {
      OccursTransitive(InetAddress(line), line, output);
    }
  }

  lemma LineKeepsSound(format: Format, state: State, line: string, output: string)
    requires IsSoundState(state, output) && OccursIn(line, output)
    ensures IsSoundState(AfterLine(format, state, line), output)
  {
    hide WithAddress;
    hide OccursIn;
    hide OpensBlock;
    hide IsSound;
    NormalizedHasNoAt(if format.Ifconfig? && 0 < |Tokens(line)| then Tokens(line)[0]
                      else if format.IpAddr? && 1 < |Tokens(line)| then Tokens(line)[1] else "");
    if OpensBlock(format, line) {
      AddressKeepsSound(state.(current := BlockName(format, line)), line, output);
    } else {
      AddressKeepsSound(state, line, output);
    }
  }

  lemma {:induction false} TextKeepsSound(format: Format, state: State, text: string, output: string)
    requires IsSoundState(state, output) && OccursIn(text, output)
    ensures IsSoundState(AfterText(format, state, text), output)
    decreases |text|
  {
    hide AfterLine;
    hide IsSoundState;
    if text != "" {
      var i := Find(text, '\n');
      SliceOccurs(text, 0, i);
      OccursTransitive(text[..i], text, output);
      LineKeepsSound(format, state, text[..i], output);
      if i == |text| {
        assert text[..i] == text;
        TextOfOneLine(format, state, text);
      } else {
        var rest := text[i + 1..];
        assert text == text[..i] + "\n" + rest;
        FirstLineOfText(format, state, text[..i], rest);
        assert rest == text[i + 1..|text|];
        SliceOccurs(text, i + 1, |text|);
        OccursTransitive(rest, text, output);
        TextKeepsSound(format, AfterLine(format, state, text[..i]), rest, output);
      }
    }
  }

  /** For every text the pairs are distinct, their names are non-empty, without at-sign and not loopback,
      and their addresses occur in the text and pass the address check. */
  lemma ParsedIsSound(format: Format, output: string)
    ensures NoDuplicates(Parsed(format, output))
    ensures forall i :: 0 <= i < |Parsed(format, output)| ==> IsSound(Parsed(format, output)[i], output)
  {
    hide IsSound;
    assert output[0..|output|] == output;
    SliceOccurs(output, 0, |output|);
    TextKeepsSound(format, State("", []), output, output);
  }

  /** What passes the address check is a dotted quad exactly when it holds no NUL, since the check only
      sees the text before the first one. */
  lemma ValidMeansQuadWithoutNul(address: string)
    requires IsValidIpv4(address)
    ensures '\0' !in address <==> exists x: u32 :: address == InetNtop(x)
  {
    hide InetNtop;
    hide InetPton;
    if '\0' !in address {
      CStringWithoutNul(address);
      PtonIffNtop(address, InetPton(address).value);
    }
    if x: u32 :| address == InetNtop(x) {
      QuadShape(x);
    }
  }

  /** On NUL-free text every returned address is a dotted quad. */
  lemma ParsedAddressesAreQuads(format: Format, output: string, i: nat)
    requires '\0' !in output && i < |Parsed(format, output)|
    ensures exists x: u32 :: Parsed(format, output)[i].ipv4 == InetNtop(x)
  {
    ParsedIsSound(format, output);
    var pair := Parsed(format, output)[i];
    assert IsSound(pair, output);
    if '\0' in pair.ipv4 {
      OccursCharacters(pair.ipv4, output, '\0');
    }
    ValidMeansQuadWithoutNul(pair.ipv4);
  }
}
