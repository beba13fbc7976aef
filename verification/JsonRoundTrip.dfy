/** The reader recovers exactly what the writer was given. */
module JsonRoundTrip {
  import opened Wrappers
  import opened IfconfigParser
  import opened Formatter
  import opened JsonReader

  // Escaping

  /** The body of a JSON string: no control character, and no quote that a backslash does not precede. */
  ghost predicate IsStringBody(s: string)
    decreases |s|
  {
    s == "" ||
    (if s[0] == '\\' then |s| >= 2 && s[1] as int >= 0x20 && IsStringBody(s[2..])
     else s[0] != '"' && s[0] as int >= 0x20 && IsStringBody(s[1..]))
  }

  function Unescaped(s: string): Option<string> {
    match ReadChars(s + "\"")
    case Got(text, "") => Some(text)
    case _ => None
  }

  lemma EscapedCharRead(c: char, rest: string)
    ensures ReadChars(EscapedChar(c) + rest)
         == match ReadChars(rest) case Fail => Fail case Got(text, after) => Got([c] + text, after)
  {
    var e := EscapedChar(c);
    var s := e + rest;
    if |e| == 1 {
      assert s[1..] == rest;
    } else if |e| == 2 {
      ShortEscapeRead(c, rest);
    } else {
      ControlEscapeRead(c, rest);
    }
  }

  lemma ShortEscapeRead(c: char, rest: string)
    requires |EscapedChar(c)| == 2
    ensures EscapedChar(c)[0] == '\\' && (EscapedChar(c) + rest)[1..] == [EscapedChar(c)[1]] + rest
    ensures ReadEscape((EscapedChar(c) + rest)[1..]) == Got(c, rest)
  {
    assert (EscapedChar(c) + rest)[1..] == [EscapedChar(c)[1]] + rest;
    assert ([EscapedChar(c)[1]] + rest)[1..] == rest;
  }

  lemma ControlEscapeRead(c: char, rest: string)
    requires c as int < 0x20
    ensures ReadEscape("u00" + [HexDigit(c as int / 16), HexDigit(c as int % 16)] + rest) == Got(c, rest)
    ensures |EscapedChar(c)| == 6 ==>
      (EscapedChar(c) + rest)[1..] == "u00" + [HexDigit(c as int / 16), HexDigit(c as int % 16)] + rest
  {
    var x, y := HexDigit(c as int / 16), HexDigit(c as int % 16);
    CodeUnitOfControl(c);
    hide HexDigit;
    hide CodeUnit;
    var s := "u00" + [x, y] + rest;
    assert s[0] == 'u' && s[1] == '0' && s[2] == '0' && s[3] == x && s[4] == y && s[5..] == rest;
  }

  lemma CodeUnitOfControl(c: char)
    requires c as int < 0x20
    ensures CodeUnit('0', '0', HexDigit(c as int / 16), HexDigit(c as int % 16)) == Some(c)
  {
    HexRoundTrip(c as int / 16);
    HexRoundTrip(c as int % 16);
    hide HexDigit;
    assert HexValue('0') == Some(0);
  }

  lemma HexRoundTrip(n: nat)
    requires n < 16
    ensures HexValue(HexDigit(n)) == Some(n)
  {
  }

  lemma {:induction false} EscapedRead(value: string, rest: string)
    ensures ReadChars(Escaped(value) + "\"" + rest) == Got(value, rest)
  {
    if value == "" {
      assert Escaped(value) + "\"" + rest == "\"" + rest;
      assert ("\"" + rest)[1..] == rest;
    } else {
      var front, more := EscapedChar(value[0]), Escaped(value[1..]);
      EscapedRead(value[1..], rest);
      EscapedCharRead(value[0], more + "\"" + rest);
      hide *;
      Regroup(front, more, "\"", rest);
      assert [value[0]] + value[1..] == value;
    }
  }

  lemma {:induction false} BodyConcat(a: string, b: string)
    requires IsStringBody(a) && IsStringBody(b)
    ensures IsStringBody(a + b)
    decreases |a|
  {
    if a == "" {
      assert a + b == b;
    } else if a[0] == '\\' {
      assert (a + b)[2..] == a[2..] + b;
      BodyConcat(a[2..], b);
    } else {
      assert (a + b)[1..] == a[1..] + b;
      BodyConcat(a[1..], b);
    }
  }

  lemma PlainBody(c: char, rest: string)
    requires c as int >= 0x20 && c != '"' && c != '\\' && IsStringBody(rest)
    ensures IsStringBody([c] + rest)
  {
    assert ([c] + rest)[1..] == rest;
  }

  lemma EscapedCharIsBody(c: char)
    ensures IsStringBody(EscapedChar(c))
  {
    var e := EscapedChar(c);
    if |e| == 6 {
      var x, y := HexDigit(c as int / 16), HexDigit(c as int % 16);
      HexDigitIsPlain(c as int / 16);
      HexDigitIsPlain(c as int % 16);
      PlainBody(y, "");
      PlainBody(x, [y] + "");
      PlainBody('0', [x] + ([y] + ""));
      PlainBody('0', ['0'] + ([x] + ([y] + "")));
      assert e[2..] == ['0'] + (['0'] + ([x] + ([y] + "")));
    } else if |e| == 2 {
      assert e[2..] == "";
    } else {
      PlainBody(c, "");
      assert [c] + "" == e;
    }
  }

  lemma HexDigitIsPlain(n: nat)
    requires n < 16
    ensures HexDigit(n) as int >= 0x20 && HexDigit(n) != '"' && HexDigit(n) != '\\'
  {
  }

  lemma {:induction false} EscapedIsBody(value: string)
    ensures IsStringBody(Escaped(value))
  {
    if value != "" {
      EscapedCharIsBody(value[0]);
      EscapedIsBody(value[1..]);
      BodyConcat(EscapedChar(value[0]), Escaped(value[1..]));
    }
  }

  lemma {:induction false} BodyHasNoControl(s: string)
    requires IsStringBody(s)
    ensures forall i :: 0 <= i < |s| ==> s[i] as int >= 0x20
    decreases |s|
  {
    if s != "" {
      BodyHasNoControl(if s[0] == '\\' then s[2..] else s[1..]);
    }
  }

  /** Escaping yields a valid string body for every value, and the standard unescape undoes it. */
  lemma EscapingIsReversible(value: string)
    ensures IsStringBody(Escaped(value))
    ensures forall i :: 0 <= i < |Escaped(value)| ==> Escaped(value)[i] as int >= 0x20
    ensures Unescaped(Escaped(value)) == Some(value)
  {
    EscapedIsBody(value);
    BodyHasNoControl(Escaped(value));
    EscapedRead(value, "");
    assert Escaped(value) + "\"" + "" == Escaped(value) + "\"";
  }

  // Values

  ghost predicate Blanks(s: string) {
    forall i :: 0 <= i < |s| ==> IsBlank(s[i])
  }

  /** The text is a value whatever follows it. */
  ghost predicate ReadsAs(text: string, v: Value) {
    forall tail: string :: ReadValue(text + tail) == Got(v, tail)
  }

  ghost predicate AllRead(texts: seq<string>, values: seq<Value>) {
    |texts| == |values| && forall i :: 0 <= i < |texts| ==> ReadsAs(texts[i], values[i])
  }

  lemma {:induction false} BlanksSkipped(blanks: string, s: string)
    requires Blanks(blanks)
    ensures SkipBlanks(blanks + s) == SkipBlanks(s)
  {
    if blanks == "" {
      assert blanks + s == s;
    } else {
      assert (blanks + s)[0] == blanks[0] && (blanks + s)[1..] == blanks[1..] + s;
      BlanksSkipped(blanks[1..], s);
    }
  }

  lemma BlanksBeforeValue(blanks: string, s: string)
    requires Blanks(blanks)
    ensures ReadValue(blanks + s) == ReadValue(s)
  {
    BlanksSkipped(blanks, s);
  }

  lemma IndentedReads(blanks: string, text: string, v: Value)
    requires ReadsAs(text, v) && Blanks(blanks)
    ensures ReadsAs(blanks + text, v)
  {
    forall tail: string ensures ReadValue(blanks + text + tail) == Got(v, tail) {
      assert blanks + text + tail == blanks + (text + tail);
      BlanksBeforeValue(blanks, text + tail);
    }
  }

  lemma QuotedReads(value: string)
    ensures ReadsAs(Quoted(value), Str(value))
  {
    hide Escaped;
    forall tail: string ensures ReadValue(Quoted(value) + tail) == Got(Str(value), tail) {
      assert (Quoted(value) + tail)[1..] == Escaped(value) + "\"" + tail;
      EscapedRead(value, tail);
    }
  }

  lemma LastItemRead(s: string, v: Value, rest: string, tail: string)
    requires ReadValue(s) == Got(v, rest) && SkipBlanks(rest) == "]" + tail
    ensures ReadItems(s) == Got([v], tail)
  {
    hide ReadValue;
    assert ("]" + tail)[1..] == tail;
  }

  lemma NextItemRead(s: string, v: Value, rest: string, next: string, vs: seq<Value>, tail: string)
    requires ReadValue(s) == Got(v, rest) && SkipBlanks(rest) == "," + next && ReadItems(next) == Got(vs, tail)
    ensures ReadItems(s) == Got([v] + vs, tail)
  {
    hide ReadValue;
    assert ("," + next)[1..] == next;
  }

  lemma {:induction false} ItemsRead(items: seq<string>, values: seq<Value>, i: nat, tail: string)
    requires AllRead(items, values) && i < |items|
    ensures ReadItems(items[i] + (ItemsFrom(items, i + 1) + "\n  ]" + tail)) == Got(values[i..], tail)
    decreases |items| - i
  {
    hide *;
    var after := ItemsFrom(items, i + 1) + "\n  ]" + tail;
    SameLengths(items, values);
    ItemAt(items, values, i, after);
    if i + 1 == |items| {
      NoMoreItems(items);
      BlanksBeforeBracket(tail);
      LastItemRead(items[i] + after, values[i], after, tail);
      assert values[i..] == [values[i]];
    } else {
      ItemsRead(items, values, i + 1, tail);
      AfterItem(items, i, tail);
      var next := items[i + 1] + (ItemsFrom(items, i + 2) + "\n  ]" + tail);
      BlanksAroundComma(next);
      NextItemRead(items[i] + after, values[i], after, "\n" + next, values[i + 1..], tail);
      assert values[i..] == [values[i]] + values[i + 1..];
    }
  }

  lemma SameLengths(items: seq<string>, values: seq<Value>)
    requires AllRead(items, values)
    ensures |items| == |values|
  {
  }

  lemma ItemAt(items: seq<string>, values: seq<Value>, i: nat, after: string)
    requires AllRead(items, values) && i < |items|
    ensures ReadValue(items[i] + after) == Got(values[i], after)
  {
    hide ReadValue;
    assert ReadsAs(items[i], values[i]);
  }

  lemma NoMoreItems(items: seq<string>)
    ensures ItemsFrom(items, |items|) == ""
  {
  }

  lemma AfterItem(items: seq<string>, i: nat, tail: string)
    requires i + 1 < |items|
    ensures ItemsFrom(items, i + 1) + "\n  ]" + tail
         == "," + ("\n" + (items[i + 1] + (ItemsFrom(items, i + 2) + "\n  ]" + tail)))
  {
    RegroupItems(items[i + 1], ItemsFrom(items, i + 2), "\n  ]", tail);
  }

  lemma BlanksBeforeBracket(tail: string)
    ensures SkipBlanks("" + "\n  ]" + tail) == "]" + tail
  {
    assert "" + "\n  ]" + tail == "\n  " + ("]" + tail);
    TwoBlanks();
    BlanksSkipped("\n  ", "]" + tail);
    Visible(']', tail);
  }

  lemma BlanksAroundComma(next: string)
    ensures SkipBlanks("," + ("\n" + next)) == "," + ("\n" + next)
    ensures ReadItems("\n" + next) == ReadItems(next)
  {
    hide ReadItems;
    Visible(',', "\n" + next);
    TwoBlanks();
    BlanksBeforeItems("\n", next);
  }

  lemma TwoBlanks()
    ensures Blanks("\n  ") && Blanks("\n")
  {
  }

  lemma Visible(c: char, rest: string)
    requires !IsBlank(c)
    ensures SkipBlanks([c] + rest) == [c] + rest
  {
  }

  lemma RegroupItems(item: string, more: string, close: string, tail: string)
    ensures ",\n" + item + more + close + tail == "," + ("\n" + (item + (more + close + tail)))
  {
  }

  lemma BlanksBeforeItems(blanks: string, s: string)
    requires Blanks(blanks)
    ensures ReadItems(blanks + s) == ReadItems(s)
  {
    BlanksBeforeValue(blanks, s);
  }

  lemma BracketRead(inner: string, vs: seq<Value>, tail: string)
    requires SkipBlanks(inner) != "" && SkipBlanks(inner)[0] != ']' && ReadItems(inner) == Got(vs, tail)
    ensures ReadValue("[" + inner) == Got(Arr(vs), tail)
  {
    hide ReadItems;
    assert ("[" + inner)[1..] == inner;
  }

  lemma EmptyArrayReads()
    ensures ReadsAs(ArrayText([]), Arr([]))
  {
    forall tail: string ensures ReadValue(ArrayText([]) + tail) == Got(Arr([]), tail) {
      var text := ArrayText([]) + tail;
      assert text[1..] == "]" + tail;
      assert ("]" + tail)[1..] == tail;
    }
  }

  lemma ArrayReads(items: seq<string>, values: seq<Value>)
    requires AllRead(items, values)
    requires forall i :: 0 <= i < |items| ==> StartsVisibly(items[i])
    ensures ReadsAs(ArrayText(items), Arr(values))
  {
    if items == [] {
      EmptyArrayReads();
      assert values == [];
    } else {
      forall tail: string ensures ReadValue(ArrayText(items) + tail) == Got(Arr(values), tail) {
        var first := items[0];
        var more := ItemsFrom(items, 1) + "\n  ]" + tail;
        assert ArrayText(items) + tail == "[" + ("\n" + (first + more)) by {
          ArrayLayout(items);
          RegroupArray(first, ItemsFrom(items, 1), tail);
        }
        assert StartsVisibly(first);
        ItemsRead(items, values, 0, tail);
        assert values[0..] == values;
        hide *;
        TwoBlanks();
        BlanksSkipped("\n", first + more);
        BlanksBeforeItems("\n", first + more);
        NotABracket(first, more);
        BracketRead("\n" + (first + more), values, tail);
      }
    }
  }

  lemma ArrayLayout(items: seq<string>)
    requires items != []
    ensures ArrayText(items) == "[" + ("\n" + items[0] + ItemsFrom(items, 1)) + "\n  ]"
  {
  }

  lemma RegroupArray(first: string, more: string, tail: string)
    ensures "[" + ("\n" + first + more) + "\n  ]" + tail == "[" + ("\n" + (first + (more + "\n  ]" + tail)))
  {
  }

  /** After its indentation the text starts with a quote or a brace. */
  ghost predicate StartsVisibly(text: string) {
    SkipBlanks(text) != "" && (SkipBlanks(text)[0] == '"' || SkipBlanks(text)[0] == '{')
  }

  lemma {:induction false} NotABracket(text: string, after: string)
    requires StartsVisibly(text)
    ensures SkipBlanks(text + after) != "" && SkipBlanks(text + after)[0] != ']'
  {
    assert text != "" && (text + after)[0] == text[0] && (text + after)[1..] == text[1..] + after;
    if IsBlank(text[0]) {
      NotABracket(text[1..], after);
    }
  }

  // Objects

  ghost predicate IsPlain(key: string) {
    forall i :: 0 <= i < |key| ==> key[i] as int >= 0x20 && key[i] != '"' && key[i] != '\\'
  }

  lemma {:induction false} PlainKeyRead(key: string, rest: string)
    requires IsPlain(key)
    ensures ReadChars(key + "\"" + rest) == Got(key, rest)
  {
    var s := key + "\"" + rest;
    if key == "" {
      assert s[1..] == rest;
    } else {
      assert s[0] == key[0] && s[1..] == key[1..] + "\"" + rest;
      PlainKeyRead(key[1..], rest);
      assert [key[0]] + key[1..] == key;
    }
  }

  /** From the colon on, the value text and what follows it. */
  function AfterKey(text: string, tail: string): string {
    ":" + (" " + (text + tail))
  }

  lemma MemberKeyRead(indent: string, key: string, text: string, tail: string)
    requires Blanks(indent) && IsPlain(key)
    ensures ReadMembers(Member(indent, key, text) + tail) == ReadMember(key, AfterKey(text, tail))
  {
    var after := AfterKey(text, tail);
    var keyOn := "\"" + (key + "\"" + after);
    assert Member(indent, key, text) + tail == indent + keyOn by { RegroupMember(indent, key, text, tail); }
    BlanksSkipped(indent, keyOn);
    assert keyOn[1..] == key + "\"" + after;
    PlainKeyRead(key, after);
    Visible(':', " " + (text + tail));
    hide ReadMember;
    hide ReadChars;
  }

  lemma RegroupMember(indent: string, key: string, text: string, tail: string)
    ensures indent + "\"" + key + "\": " + text + tail
         == indent + ("\"" + (key + "\"" + (":" + (" " + (text + tail)))))
  {
  }

  lemma ValueAfterKey(text: string, v: Value, tail: string)
    requires ReadsAs(text, v)
    ensures ReadValue(" " + (text + tail)) == Got(v, tail)
  {
    BlanksBeforeValue(" ", text + tail);
  }

  lemma LastMemberRead(key: string, text: string, v: Value, after: string, tail: string)
    requires ReadsAs(text, v) && SkipBlanks(after) == "}" + tail
    ensures ReadMember(key, AfterKey(text, after)) == Got([(key, v)], tail)
  {
    ValueAfterKey(text, v, after);
    assert AfterKey(text, after)[1..] == " " + (text + after);
    assert ("}" + tail)[1..] == tail;
    hide ReadValue;
    hide ReadsAs;
  }

  lemma NextMemberRead(
      key: string, text: string, v: Value, after: string, next: string, ms: seq<(string, Value)>, tail: string)
    requires ReadsAs(text, v) && SkipBlanks(after) == "," + next && ReadMembers(next) == Got(ms, tail)
    ensures ReadMember(key, AfterKey(text, after)) == Got([(key, v)] + ms, tail)
  {
    ValueAfterKey(text, v, after);
    assert AfterKey(text, after)[1..] == " " + (text + after);
    assert ("," + next)[1..] == next;
    hide ReadValue;
    hide ReadMembers;
    hide ReadsAs;
  }

  ghost predicate MembersReadAs(members: seq<(string, string)>, values: seq<(string, Value)>) {
    && |members| == |values|
    && forall i :: 0 <= i < |members| ==>
         IsPlain(members[i].0) && values[i].0 == members[i].0 && ReadsAs(members[i].1, values[i].1)
  }

  lemma {:induction false} MembersRead(
      indent: string, members: seq<(string, string)>, values: seq<(string, Value)>, i: nat, close: string, tail: string)
    requires Blanks(indent) && Blanks(close) && MembersReadAs(members, values) && i < |members|
    ensures ReadMembers(MembersFrom(indent, members, i) + close + "}" + tail) == Got(values[i..], tail)
    decreases |members| - i
  {
    hide ReadMembers, ReadsAs, IsPlain, Member;
    var key, text, v := members[i].0, members[i].1, values[i].1;
    var rest := MembersFrom(indent, members, i + 1);
    assert IsPlain(key) && ReadsAs(text, v) && values[i] == (key, v);
    if i + 1 == |members| {
      assert rest == "";
      var after := "\n" + close + ("}" + tail);
      assert Blanks("\n" + close);
      assert MembersFrom(indent, members, i) + close + "}" + tail == Member(indent, key, text) + after by {
        hide Member;
        RegroupLast(Member(indent, key, text), close, tail);
      }
      assert values[i..] == [(key, v)];
      hide *;
      MemberKeyRead(indent, key, text, after);
      BlanksSkipped("\n" + close, "}" + tail);
      assert SkipBlanks("}" + tail) == "}" + tail by { Visible('}', tail); }
      LastMemberRead(key, text, v, after, tail);
    } else {
      var next := rest + close + "}" + tail;
      var after := "," + ("\n" + next);
      assert MembersFrom(indent, members, i) + close + "}" + tail == Member(indent, key, text) + after by {
        hide Member;
        RegroupNext(Member(indent, key, text), rest, close, tail);
      }
      MembersRead(indent, members, values, i + 1, close, tail);
      assert values[i..] == [(key, v)] + values[i + 1..];
      hide *;
      MemberKeyRead(indent, key, text, after);
      assert SkipBlanks(after) == after by { Visible(',', "\n" + next); }
      TwoBlanks();
      BlanksBeforeMembers("\n", next);
      NextMemberRead(key, text, v, after, "\n" + next, values[i + 1..], tail);
    }
  }

  lemma RegroupLast(m: string, close: string, tail: string)
    ensures m + "\n" + "" + close + "}" + tail == m + ("\n" + close + ("}" + tail))
  {
  }

  lemma RegroupNext(m: string, rest: string, close: string, tail: string)
    ensures m + ",\n" + rest + close + "}" + tail == m + ("," + ("\n" + (rest + close + "}" + tail)))
  {
  }

  lemma BlanksBeforeMembers(blanks: string, s: string)
    requires Blanks(blanks)
    ensures ReadMembers(blanks + s) == ReadMembers(s)
  {
    BlanksSkipped(blanks, s);
  }

  lemma BraceRead(inner: string, ms: seq<(string, Value)>, tail: string)
    requires ReadMembers(inner) == Got(ms, tail)
    ensures ReadValue("{" + inner) == Got(Obj(ms), tail)
  {
    assert ("{" + inner)[1..] == inner;
    assert SkipBlanks(inner) != "" && SkipBlanks(inner)[0] == '"';
    hide ReadMembers;
  }

  lemma ObjectReads(indent: string, members: seq<(string, string)>, values: seq<(string, Value)>, close: string)
    requires Blanks(indent) && Blanks(close) && MembersReadAs(members, values) && members != []
    ensures ReadsAs(ObjectText(indent, members, close), Obj(values))
  {
    forall tail: string ensures ReadValue(ObjectText(indent, members, close) + tail) == Got(Obj(values), tail) {
      var inner := MembersFrom(indent, members, 0) + close + "}" + tail;
      assert ObjectText(indent, members, close) + tail == "{" + ("\n" + inner);
      MembersRead(indent, members, values, 0, close, tail);
      assert values[0..] == values;
      hide *;
      TwoBlanks();
      BlanksBeforeMembers("\n", inner);
      BraceRead("\n" + inner, values, tail);
    }
  }

  // The report

  function InterfaceValue(iface: RemoteInterface): Value {
    Obj([("name", Str(iface.name)), ("ipv4", Str(iface.ipv4))])
  }

  function InterfaceValues(interfaces: seq<RemoteInterface>): seq<Value> {
    seq(|interfaces|, i requires 0 <= i < |interfaces| => InterfaceValue(interfaces[i]))
  }

  function WarningValues(warnings: seq<string>): seq<Value> {
    seq(|warnings|, i requires 0 <= i < |warnings| => Str(warnings[i]))
  }

  function ReportValues(report: DiscoveryReport): seq<(string, Value)> {
    [("ssh_ip", Str(report.sshIp)),
     ("ssh_banner", Str(report.sshBanner)),
     ("local_interface", Str(report.interfaceName)),
     ("discovery_stage", Str(report.discoveryStage)),
     ("host_key_status", Str(report.hostKeyStatus)),
     ("interfaces", Arr(InterfaceValues(report.interfaces))),
     ("warnings", Arr(WarningValues(report.warnings)))]
  }

  lemma InterfaceReads(iface: RemoteInterface)
    ensures ReadsAs(InterfaceText(iface), InterfaceValue(iface))
    ensures StartsVisibly(InterfaceText(iface))
  {
    hide Quoted;
    hide ReadsAs;
    var braced := ObjectText("      ", InterfaceMembers(iface), "    ");
    QuotedReads(iface.name);
    QuotedReads(iface.ipv4);
    ObjectReads("      ", InterfaceMembers(iface), [("name", Str(iface.name)), ("ipv4", Str(iface.ipv4))], "    ");
    IndentedReads("    ", braced, InterfaceValue(iface));
    BlanksSkipped("    ", braced);
    assert braced[0] == '{';
  }

  lemma InterfacesRead(interfaces: seq<RemoteInterface>)
    ensures ReadsAs(ArrayText(InterfaceTexts(interfaces)), Arr(InterfaceValues(interfaces)))
  {
    hide InterfaceText;
    hide InterfaceValue;
    hide ReadsAs;
    forall i | 0 <= i < |interfaces|
      ensures ReadsAs(InterfaceTexts(interfaces)[i], InterfaceValues(interfaces)[i])
      ensures StartsVisibly(InterfaceTexts(interfaces)[i])
    {
      InterfaceReads(interfaces[i]);
    }
    ArrayReads(InterfaceTexts(interfaces), InterfaceValues(interfaces));
  }

  lemma WarningsRead(warnings: seq<string>)
    ensures ReadsAs(ArrayText(WarningTexts(warnings)), Arr(WarningValues(warnings)))
  {
    hide ReadsAs;
    hide Escaped;
    forall i | 0 <= i < |warnings|
      ensures ReadsAs(WarningTexts(warnings)[i], WarningValues(warnings)[i])
      ensures StartsVisibly(WarningTexts(warnings)[i])
    {
      QuotedReads(warnings[i]);
      IndentedReads("    ", Quoted(warnings[i]), Str(warnings[i]));
      BlanksSkipped("    ", Quoted(warnings[i]));
    }
    ArrayReads(WarningTexts(warnings), WarningValues(warnings));
  }

  lemma KeysArePlain()
    ensures IsPlain("ssh_ip") && IsPlain("ssh_banner") && IsPlain("local_interface")
    ensures IsPlain("discovery_stage") && IsPlain("host_key_status") && IsPlain("interfaces") && IsPlain("warnings")
  {
  }

  lemma ReportMembersRead(report: DiscoveryReport)
    ensures MembersReadAs(ReportMembers(report), ReportValues(report))
  {
    hide Quoted;
    hide ArrayText;
    hide InterfaceTexts;
    hide WarningTexts;
    hide InterfaceValues;
    hide WarningValues;
    hide ReadsAs;
    QuotedReads(report.sshIp);
    QuotedReads(report.sshBanner);
    QuotedReads(report.interfaceName);
    QuotedReads(report.discoveryStage);
    QuotedReads(report.hostKeyStatus);
    InterfacesRead(report.interfaces);
    WarningsRead(report.warnings);
    KeysArePlain();
    hide IsPlain;
  }

  lemma ReportReads(report: DiscoveryReport)
    ensures ReadDocument(JsonText(report)) == Some(Obj(ReportValues(report)))
  {
    hide ReportMembers;
    hide ReportValues;
    hide ReadDocument;
    hide ObjectText;
    hide MembersReadAs;
    hide ReadsAs;
    ReportMembersRead(report);
    assert ReportMembers(report) != [] by { SomeMembers(report); }
    ObjectReads("  ", ReportMembers(report), ReportValues(report), "");
    DocumentRead(ObjectText("  ", ReportMembers(report), ""), Obj(ReportValues(report)));
  }

  lemma SomeMembers(report: DiscoveryReport)
    ensures ReportMembers(report) != []
  {
  }

  lemma DocumentRead(text: string, v: Value)
    requires ReadsAs(text, v)
    ensures ReadDocument(text + "\n") == Some(v)
  {
    hide ReadValue;
    assert ReadValue(text + "\n") == Got(v, "\n");
    assert SkipBlanks("\n") == SkipBlanks("") == "";
  }

  lemma {:induction false} InterfacesBack(interfaces: seq<RemoteInterface>)
    ensures InterfacesOf(InterfaceValues(interfaces)) == Some(interfaces)
  {
    if interfaces != [] {
      var values := InterfaceValues(interfaces);
      assert values[1..] == InterfaceValues(interfaces[1..]);
      InterfacesBack(interfaces[1..]);
      InterfaceFields(interfaces[0]);
      assert [interfaces[0]] + interfaces[1..] == interfaces;
    }
  }

  lemma InterfaceFields(iface: RemoteInterface)
    ensures StringField(InterfaceValue(iface), "name") == Some(iface.name)
    ensures StringField(InterfaceValue(iface), "ipv4") == Some(iface.ipv4)
  {
    LookupAt(InterfaceValue(iface).members, 0, "name");
    LookupAt(InterfaceValue(iface).members, 1, "ipv4");
  }

  lemma {:induction false} WarningsBack(warnings: seq<string>)
    ensures TextsOf(WarningValues(warnings)) == Some(warnings)
  {
    if warnings != [] {
      assert WarningValues(warnings)[1..] == WarningValues(warnings[1..]);
      WarningsBack(warnings[1..]);
      assert [warnings[0]] + warnings[1..] == warnings;
    }
  }

  ghost predicate KeyAt(members: seq<(string, Value)>, k: nat, key: string) {
    k < |members| && members[k].0 == key && forall i :: 0 <= i < k ==> members[i].0 != key
  }

  lemma {:induction false} LookupAt(members: seq<(string, Value)>, k: nat, key: string)
    requires KeyAt(members, k, key)
    ensures Lookup(members, key) == Some(members[k].1)
  {
    if k > 0 {
      assert members[0].0 != key;
      LookupAt(members[1..], k - 1, key);
    }
  }

  lemma ReportFields(report: DiscoveryReport)
    ensures ReportOf(Obj(ReportValues(report))) == Some(report)
  {
    hide InterfaceValues;
    hide WarningValues;
    hide Lookup;
    var members := ReportValues(report);
    LookupAt(members, 0, "ssh_ip");
    LookupAt(members, 1, "ssh_banner");
    LookupAt(members, 2, "local_interface");
    LookupAt(members, 3, "discovery_stage");
    LookupAt(members, 4, "host_key_status");
    LookupAt(members, 5, "interfaces");
    LookupAt(members, 6, "warnings");
    InterfacesBack(report.interfaces);
    WarningsBack(report.warnings);
  }

  /** For every report, with lists of any length, reading the written text gives the report back. */
  lemma WrittenThenRead(report: DiscoveryReport)
    ensures ReadReport(JsonText(report)) == Some(report)
  {
    hide *;
    ReportReads(report);
    ReportFields(report);
    ReadReportOf(JsonText(report), Obj(ReportValues(report)));
  }

  lemma ReadReportOf(text: string, v: Value)
    requires ReadDocument(text) == Some(v)
    ensures ReadReport(text) == ReportOf(v)
  {
    hide ReadDocument;
    hide ReportOf;
  }

  /** Different reports are written differently. */
  lemma WritingIsInjective(r1: DiscoveryReport, r2: DiscoveryReport)
    requires JsonText(r1) == JsonText(r2)
    ensures r1 == r2
  {
    hide *;
    WrittenThenRead(r1);
    WrittenThenRead(r2);
  }

  // The exact text

  lemma PlainCharStays(c: char)
    ensures EscapedChar(c) == [c] <==> IsPlain([c])
  {
    assert IsPlain([c]) <==> [c][0] as int >= 0x20 && [c][0] != '"' && [c][0] != '\\';
    assert |EscapedChar(c)| == 1 ==> EscapedChar(c) == [c];
  }

  lemma {:induction false} EscapedIsNotShorter(value: string)
    ensures |Escaped(value)| >= |value|
    ensures |Escaped(value)| == |value| ==> IsPlain(value)
  {
    if value != "" {
      EscapedIsNotShorter(value[1..]);
      PlainCharStays(value[0]);
      assert forall i :: 0 < i < |value| ==> value[i] == value[1..][i - 1];
      assert IsPlain([value[0]]) ==> [value[0]][0] as int >= 0x20 && [value[0]][0] != '"' && [value[0]][0] != '\\';
    }
  }

  /** Only quotes, backslashes and control characters are escaped. */
  lemma {:induction false} PlainIffUnchanged(value: string)
    ensures Escaped(value) == value <==> IsPlain(value)
  {
    EscapedIsNotShorter(value);
    if value != "" && IsPlain(value) {
      PlainIffUnchanged(value[1..]);
      PlainCharStays(value[0]);
      assert [value[0]] + value[1..] == value;
    }
  }

  /** The five short escapes, and the long form with four lower-case hexadecimal digits for the other control
      characters. */
  lemma EscapesUsed(c: char)
    ensures EscapedChar('"') == "\\\"" && EscapedChar('\\') == "\\\\"
    ensures EscapedChar('\n') == "\\n" && EscapedChar('\r') == "\\r" && EscapedChar('\t') == "\\t"
    ensures c as int < 0x20 && c !in "\n\r\t" ==>
      EscapedChar(c) == "\\u00" + [if c as int < 16 then '0' else '1', "0123456789abcdef"[c as int % 16]]
  {
    assert c in "\n\r\t" <==> c == '\n' || c == '\r' || c == '\t';
  }

  lemma EndpointTexts(value: string)
    ensures Member("  ", "ssh_ip", value) == "  \"ssh_ip\": " + value
    ensures Member("  ", "ssh_banner", value) == "  \"ssh_banner\": " + value
    ensures Member("  ", "local_interface", value) == "  \"local_interface\": " + value
  {
  }

  lemma StageTexts(value: string)
    ensures Member("  ", "discovery_stage", value) == "  \"discovery_stage\": " + value
    ensures Member("  ", "host_key_status", value) == "  \"host_key_status\": " + value
  {
  }

  lemma ListTexts(value: string)
    ensures Member("  ", "interfaces", value) == "  \"interfaces\": " + value
    ensures Member("  ", "warnings", value) == "  \"warnings\": " + value
  {
  }

  lemma InterfaceMemberTexts(value: string)
    ensures Member("      ", "name", value) == "      \"name\": " + value
    ensures Member("      ", "ipv4", value) == "      \"ipv4\": " + value
  {
  }

  /** The text of a report, line by line. */
  lemma TextOfReport(report: DiscoveryReport)
    ensures JsonText(report) ==
      "{\n" + ("  \"ssh_ip\": " + Quoted(report.sshIp) + ",\n"
      + ("  \"ssh_banner\": " + Quoted(report.sshBanner) + ",\n"
      + ("  \"local_interface\": " + Quoted(report.interfaceName) + ",\n"
      + ("  \"discovery_stage\": " + Quoted(report.discoveryStage) + ",\n"
      + ("  \"host_key_status\": " + Quoted(report.hostKeyStatus) + ",\n"
      + ("  \"interfaces\": " + ArrayText(InterfaceTexts(report.interfaces)) + ",\n"
      + ("  \"warnings\": " + ArrayText(WarningTexts(report.warnings)) + "\n" + ""))))))) + "}\n"
  {
    hide *;
    var all := ReportMembers(report);
    ReportMemberList(report);
    ReportLayout(report);
    MemberAfter(all, 0);
    MemberAfter(all, 1);
    MemberAfter(all, 2);
    MemberAfter(all, 3);
    MemberAfter(all, 4);
    MemberAfter(all, 5);
    MemberAfter(all, 6);
    NoMoreMembers("  ", all);
    EndpointTexts(all[0].1);
    EndpointTexts(all[1].1);
    EndpointTexts(all[2].1);
    StageTexts(all[3].1);
    StageTexts(all[4].1);
    ListTexts(all[5].1);
    ListTexts(all[6].1);
  }

  lemma MemberAfter(members: seq<(string, string)>, i: nat)
    requires i < |members|
    ensures MembersFrom("  ", members, i) ==
      Member("  ", members[i].0, members[i].1) + (if i + 1 < |members| then ",\n" else "\n")
      + MembersFrom("  ", members, i + 1)
  {
    hide Member;
  }

  /** The texts inside the two lists, and how the items are separated. */
  lemma TextsOfLists(iface: RemoteInterface, first: string, second: string)
    ensures InterfaceText(iface) == "    " + ("{\n" + ("      \"name\": " + Quoted(iface.name) + ",\n"
      + ("      \"ipv4\": " + Quoted(iface.ipv4) + "\n" + "")) + "    " + "}")
    ensures ArrayText([]) == "[]"
    ensures ArrayText([first]) == "[" + ("\n" + first + "") + "\n  ]"
    ensures ArrayText([first, second]) == "[" + ("\n" + first + (",\n" + second + "")) + "\n  ]"
  {
    InterfaceMemberTexts(Quoted(iface.name));
    InterfaceMemberTexts(Quoted(iface.ipv4));
    hide Quoted, Member;
    var both := InterfaceMembers(iface);
    assert MembersFrom("      ", both, 1) == Member("      ", "ipv4", Quoted(iface.ipv4)) + "\n" + "" by {
      NoMoreMembers("      ", both);
    }
    assert ItemsFrom([first], 1) == "" && ItemsFrom([first, second], 2) == "";
    assert ItemsFrom([first, second], 1) == ",\n" + second + "";
  }
}
