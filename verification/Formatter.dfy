/** The machine-readable report. */
module Formatter {
  import opened IfconfigParser

  datatype DiscoveryReport = DiscoveryReport(
    interfaceName: string, sshIp: string, sshBanner: string, hostKeyStatus: string, discoveryStage: string,
    interfaces: seq<RemoteInterface>, warnings: seq<string>)

  // Escaping

  function HexDigit(n: nat): char
    requires n < 16
  {
    "0123456789abcdef"[n]
  }

  function EscapedChar(c: char): string {
    if c == '"' then "\\\""
    else if c == '\\' then "\\\\"
    else if c == '\n' then "\\n"
    else if c == '\r' then "\\r"
    else if c == '\t' then "\\t"
    else if c as int < 0x20 then "\\u00" + [HexDigit(c as int / 16), HexDigit(c as int % 16)]
    else [c]
  }

  function Escaped(value: string): string {
    if value == "" then "" else EscapedChar(value[0]) + Escaped(value[1..])
  }

  method JsonEscape(value: string) returns (out: string)
    ensures out == Escaped(value)
  {
    hide EscapedChar, Escaped;
    out := "";
    for i := 0 to |value|
      invariant out + Escaped(value[i..]) == Escaped(value)
    {
      EscapeStep(out, value[i..]);
      assert value[i..][1..] == value[i + 1..];
      out := out + EscapedChar(value[i]);
    }
    assert value[|value|..] == "";
    NothingToEscape(out);
  }

  lemma EscapeStep(out: string, value: string)
    requires value != ""
    ensures out + Escaped(value) == out + EscapedChar(value[0]) + Escaped(value[1..])
  {
    hide EscapedChar;
    assert out + (EscapedChar(value[0]) + Escaped(value[1..])) == out + EscapedChar(value[0]) + Escaped(value[1..]);
  }

  lemma NothingToEscape(out: string)
    ensures out + Escaped("") == out
  {
  }

  // The layout

  function Quoted(value: string): string {
    "\"" + Escaped(value) + "\""
  }

  function Member(indent: string, key: string, value: string): string {
    indent + "\"" + key + "\": " + value
  }

  /** The elements from the `i`-th on, each on a line of its own after its separator. */
  function ItemsFrom(items: seq<string>, i: nat): string
    requires i <= |items|
    decreases |items| - i
  {
    if i == |items| then "" else (if i == 0 then "\n" else ",\n") + items[i] + ItemsFrom(items, i + 1)
  }

  function ArrayText(items: seq<string>): string {
    "[" + ItemsFrom(items, 0) + (if items == [] then "]" else "\n  ]")
  }

  /** The members from the `i`-th on, given as keys and value texts, one a line. */
  function MembersFrom(indent: string, members: seq<(string, string)>, i: nat): string
    requires i <= |members|
    decreases |members| - i
  {
    if i == |members| then ""
    else
      Member(indent, members[i].0, members[i].1) + (if i + 1 < |members| then ",\n" else "\n")
      + MembersFrom(indent, members, i + 1)
  }

  function ObjectText(indent: string, members: seq<(string, string)>, close: string): string {
    "{\n" + MembersFrom(indent, members, 0) + close + "}"
  }

  function InterfaceMembers(iface: RemoteInterface): seq<(string, string)> {
    [("name", Quoted(iface.name)), ("ipv4", Quoted(iface.ipv4))]
  }

  function InterfaceText(iface: RemoteInterface): string {
    "    " + ObjectText("      ", InterfaceMembers(iface), "    ")
  }

  function InterfaceTexts(interfaces: seq<RemoteInterface>): seq<string> {
    seq(|interfaces|, i requires 0 <= i < |interfaces| => InterfaceText(interfaces[i]))
  }

  function WarningTexts(warnings: seq<string>): seq<string> {
    seq(|warnings|, i requires 0 <= i < |warnings| => "    " + Quoted(warnings[i]))
  }

  function ReportMembers(report: DiscoveryReport): seq<(string, string)> {
    [("ssh_ip", Quoted(report.sshIp)),
     ("ssh_banner", Quoted(report.sshBanner)),
     ("local_interface", Quoted(report.interfaceName)),
     ("discovery_stage", Quoted(report.discoveryStage)),
     ("host_key_status", Quoted(report.hostKeyStatus)),
     ("interfaces", ArrayText(InterfaceTexts(report.interfaces))),
     ("warnings", ArrayText(WarningTexts(report.warnings)))]
  }

  function JsonText(report: DiscoveryReport): string {
    ObjectText("  ", ReportMembers(report), "") + "\n"
  }

  // The writer

  lemma MemberStep(out: string, indent: string, members: seq<(string, string)>, i: nat)
    requires i < |members|
    ensures out + MembersFrom(indent, members, i)
         == out + Member(indent, members[i].0, members[i].1) + (if i + 1 < |members| then ",\n" else "\n")
            + MembersFrom(indent, members, i + 1)
  {
    hide Member;
    Regroup(out, Member(indent, members[i].0, members[i].1), if i + 1 < |members| then ",\n" else "\n",
            MembersFrom(indent, members, i + 1));
  }

  lemma ItemStep(out: string, items: seq<string>, i: nat)
    requires i < |items|
    ensures out + ItemsFrom(items, i)
         == out + (if i == 0 then "\n" else ",\n") + items[i] + ItemsFrom(items, i + 1)
  {
    Regroup(out, if i == 0 then "\n" else ",\n", items[i], ItemsFrom(items, i + 1));
  }

  lemma Regroup(a: string, b: string, c: string, d: string)
    ensures a + (b + c + d) == a + b + c + d
  {
  }

  /** Appends the line of the `i`-th member; the last one has no comma. */
  method WriteMember(
      before: string, indent: string, key: string, text: string, last: bool,
      ghost members: seq<(string, string)>, ghost i: nat)
      returns (out: string)
    requires i < |members| && members[i] == (key, text) && (last <==> i + 1 == |members|)
    ensures out + MembersFrom(indent, members, i + 1) == before + MembersFrom(indent, members, i)
  {
    MemberStep(before, indent, members, i);
    hide MembersFrom;
    out := before + Member(indent, key, text) + if last then "\n" else ",\n";
  }

  /** The same for a member whose value is a string. */
  method WriteString(
      before: string, indent: string, key: string, value: string, last: bool,
      ghost members: seq<(string, string)>, ghost i: nat)
      returns (out: string)
    requires i < |members| && members[i] == (key, Quoted(value)) && (last <==> i + 1 == |members|)
    ensures out + MembersFrom(indent, members, i + 1) == before + MembersFrom(indent, members, i)
  {
    var escaped := JsonEscape(value);
    out := WriteMember(before, indent, key, "\"" + escaped + "\"", last, members, i);
  }

  method FormatJson(report: DiscoveryReport) returns (out: string)
    ensures out == JsonText(report)
  {
    hide *;
    ghost var all := ReportMembers(report);
    ReportMemberList(report);
    out := "{\n";
    out := WriteString(out, "  ", "ssh_ip", report.sshIp, false, all, 0);
    out := WriteString(out, "  ", "ssh_banner", report.sshBanner, false, all, 1);
    out := WriteString(out, "  ", "local_interface", report.interfaceName, false, all, 2);
    out := WriteString(out, "  ", "discovery_stage", report.discoveryStage, false, all, 3);
    out := WriteString(out, "  ", "host_key_status", report.hostKeyStatus, false, all, 4);
    var items := WriteInterfaces(report.interfaces);
    out := WriteMember(out, "  ", "interfaces", items, false, all, 5);
    items := WriteWarnings(report.warnings);
    out := WriteMember(out, "  ", "warnings", items, true, all, 6);
    NoMoreMembers("  ", all);
    assert out == out + "";
    out := out + "}\n";
    ReportLayout(report);
  }

  lemma ReportMemberList(report: DiscoveryReport)
    ensures var all := ReportMembers(report);
            && |all| == 7
            && all[0] == ("ssh_ip", Quoted(report.sshIp))
            && all[1] == ("ssh_banner", Quoted(report.sshBanner))
            && all[2] == ("local_interface", Quoted(report.interfaceName))
            && all[3] == ("discovery_stage", Quoted(report.discoveryStage))
            && all[4] == ("host_key_status", Quoted(report.hostKeyStatus))
            && all[5] == ("interfaces", ArrayText(InterfaceTexts(report.interfaces)))
            && all[6] == ("warnings", ArrayText(WarningTexts(report.warnings)))
  {
  }

  lemma ReportLayout(report: DiscoveryReport)
    ensures JsonText(report) == "{\n" + MembersFrom("  ", ReportMembers(report), 0) + "}\n"
  {
    hide MembersFrom;
    hide ReportMembers;
  }

  lemma NoMoreMembers(indent: string, members: seq<(string, string)>)
    ensures MembersFrom(indent, members, |members|) == ""
  {
  }

  method WriteInterfaces(interfaces: seq<RemoteInterface>) returns (out: string)
    ensures out == ArrayText(InterfaceTexts(interfaces))
  {
    hide InterfaceText;
    ghost var items := InterfaceTexts(interfaces);
    ghost var full := "[" + ItemsFrom(items, 0);
    out := "[";
    for i := 0 to |interfaces|
      invariant out + ItemsFrom(items, i) == full
    {
      ItemStep(out, items, i);
      out := out + if i == 0 then "\n" else ",\n";
      var item := WriteInterface(interfaces[i]);
      out := out + item;
    }
    assert out + "" == out;
    out := out + if interfaces == [] then "]" else "\n  ]";
  }

  method WriteInterface(iface: RemoteInterface) returns (out: string)
    ensures out == InterfaceText(iface)
  {
    hide MembersFrom;
    hide Quoted;
    ghost var both := InterfaceMembers(iface);
    out := "    {\n";
    out := WriteString(out, "      ", "name", iface.name, false, both, 0);
    out := WriteString(out, "      ", "ipv4", iface.ipv4, true, both, 1);
    NoMoreMembers("      ", both);
    assert out == out + "";
    out := out + "    }";
    Regroup("    ", "{\n", MembersFrom("      ", both, 0), "    " + "}");
    assert "    {\n" == "    " + "{\n" && "    }" == "    " + "}";
  }

  method WriteWarnings(warnings: seq<string>) returns (out: string)
    ensures out == ArrayText(WarningTexts(warnings))
  {
    hide Escaped;
    ghost var items := WarningTexts(warnings);
    ghost var full := "[" + ItemsFrom(items, 0);
    out := "[";
    for i := 0 to |warnings|
      invariant out + ItemsFrom(items, i) == full
    {
      ItemStep(out, items, i);
      out := out + if i == 0 then "\n" else ",\n";
      var escaped := JsonEscape(warnings[i]);
      assert items[i] == "    " + ("\"" + escaped + "\"");
      out := out + ("    " + ("\"" + escaped + "\""));
    }
    assert out + "" == out;
    out := out + if warnings == [] then "]" else "\n  ]";
  }
}
