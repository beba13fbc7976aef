/**
 A reader for JSON texts (RFC 8259) made of strings, arrays and objects, and the report that such a
 text stands for. It knows nothing of the writer: white space is free, members may come in any order,
 and strings may use every escape of section 7.
 */
module JsonReader {
  import opened Wrappers
  import opened IfconfigParser
  import opened Formatter

  datatype Value = Str(text: string) | Arr(items: seq<Value>) | Obj(members: seq<(string, Value)>)

  /** A value and what follows it. */
  datatype Read<+T> = Fail | Got(value: T, rest: string)

  predicate IsBlank(c: char) {
    c == ' ' || c == '\t' || c == '\n' || c == '\r'
  }

  function SkipBlanks(s: string): (r: string)
    ensures |r| <= |s|
  {
    if s != "" && IsBlank(s[0]) then SkipBlanks(s[1..]) else s
  }

  // Strings

  function HexValue(c: char): Option<nat> {
    if '0' <= c <= '9' then Some(c as int - '0' as int)
    else if 'a' <= c <= 'f' then Some(c as int - 'a' as int + 10)
    else if 'A' <= c <= 'F' then Some(c as int - 'A' as int + 10)
    else None
  }

  /** The character of a `\u` escape; surrogates stand for none. */
  function CodeUnit(a: char, b: char, c: char, d: char): Option<char> {
    match (HexValue(a), HexValue(b), HexValue(c), HexValue(d))
    case (Some(w), Some(x), Some(y), Some(z)) =>
      var code := 0x1000 * w + 0x100 * x + 0x10 * y + z;
      if 0 <= code < 0xD800 || 0xE000 <= code < 0x1_0000 then Some(code as char) else None
    case _ => None
  }

  /** What follows a backslash. */
  function ReadEscape(s: string): (r: Read<char>)
    ensures r.Got? ==> |r.rest| < |s|
  {
    if s == "" then Fail
    else if s[0] == '"' || s[0] == '\\' || s[0] == '/' then Got(s[0], s[1..])
    else if s[0] == 'b' then Got(8 as char, s[1..])
    else if s[0] == 'f' then Got(12 as char, s[1..])
    else if s[0] == 'n' then Got('\n', s[1..])
    else if s[0] == 'r' then Got('\r', s[1..])
    else if s[0] == 't' then Got('\t', s[1..])
    else if s[0] == 'u' && |s| >= 5 then
      match CodeUnit(s[1], s[2], s[3], s[4])
      case Some(c) => Got(c, s[5..])
      case None => Fail
    else Fail
  }

  /** The rest of a string after its opening quote. Control characters must be escaped. */
  function ReadChars(s: string): (r: Read<string>)
    ensures r.Got? ==> |r.rest| < |s|
    decreases |s|
  {
    if s == "" || s[0] as int < 0x20 then Fail
    else if s[0] == '"' then Got("", s[1..])
    else if s[0] == '\\' then
      match ReadEscape(s[1..])
      case Fail => Fail
      case Got(c, rest) =>
        match ReadChars(rest)
        case Fail => Fail
        case Got(text, rest') => Got([c] + text, rest')
    else
      match ReadChars(s[1..])
      case Fail => Fail
      case Got(text, rest) => Got([s[0]] + text, rest)
  }

  // Values

  function ReadValue(s: string): (r: Read<Value>)
    ensures r.Got? ==> |r.rest| < |s|
    decreases |s|, 0
  {
    var t := SkipBlanks(s);
    if t == "" then Fail
    else if t[0] == '"' then
      match ReadChars(t[1..])
      case Fail => Fail
      case Got(text, rest) => Got(Str(text), rest)
    else if t[0] == '[' then
      var u := SkipBlanks(t[1..]);
      if u != "" && u[0] == ']' then Got(Arr([]), u[1..])
      else
        match ReadItems(t[1..])
        case Fail => Fail
        case Got(items, rest) => Got(Arr(items), rest)
    else if t[0] == '{' then
      var u := SkipBlanks(t[1..]);
      if u != "" && u[0] == '}' then Got(Obj([]), u[1..])
      else
        match ReadMembers(t[1..])
        case Fail => Fail
        case Got(members, rest) => Got(Obj(members), rest)
    else Fail
  }

  /** One or more values separated by commas, up to the closing bracket. */
  function ReadItems(s: string): (r: Read<seq<Value>>)
    ensures r.Got? ==> |r.rest| < |s|
    decreases |s|, 1
  {
    match ReadValue(s)
    case Fail => Fail
    case Got(v, rest) =>
      var t := SkipBlanks(rest);
      if t == "" then Fail
      else if t[0] == ']' then Got([v], t[1..])
      else if t[0] == ',' then
        match ReadItems(t[1..])
        case Fail => Fail
        case Got(vs, rest') => Got([v] + vs, rest')
      else Fail
  }

  /** One or more members separated by commas, up to the closing brace. */
  function ReadMembers(s: string): (r: Read<seq<(string, Value)>>)
    ensures r.Got? ==> |r.rest| < |s|
    decreases |s|, 1
  {
    var t := SkipBlanks(s);
    if t == "" || t[0] != '"' then Fail
    else
      match ReadChars(t[1..])
      case Fail => Fail
      case Got(key, afterKey) => ReadMember(key, SkipBlanks(afterKey))
  }

  /** A member whose key has been read, and those after it. */
  function ReadMember(key: string, s: string): (r: Read<seq<(string, Value)>>)
    ensures r.Got? ==> |r.rest| < |s|
    decreases |s|, 0
  {
    if s == "" || s[0] != ':' then Fail
    else
      match ReadValue(s[1..])
      case Fail => Fail
      case Got(v, rest) =>
        var t := SkipBlanks(rest);
        if t == "" then Fail
        else if t[0] == '}' then Got([(key, v)], t[1..])
        else if t[0] == ',' then
          match ReadMembers(t[1..])
          case Fail => Fail
          case Got(ms, rest') => Got([(key, v)] + ms, rest')
        else Fail
  }

  /** A whole text: one value and nothing else. */
  function ReadDocument(s: string): Option<Value> {
    match ReadValue(s)
    case Fail => None
    case Got(v, rest) => if SkipBlanks(rest) == "" then Some(v) else None
  }

  // The report

  function Field(v: Value, key: string): Option<Value> {
    if v.Obj? then Lookup(v.members, key) else None
  }

  function Lookup(members: seq<(string, Value)>, key: string): Option<Value> {
    if members == [] then None
    else if members[0].0 == key then Some(members[0].1)
    else Lookup(members[1..], key)
  }

  function StringField(v: Value, key: string): Option<string> {
    match Field(v, key)
    case Some(Str(text)) => Some(text)
    case _ => None
  }

  function ItemsField(v: Value, key: string): Option<seq<Value>> {
    match Field(v, key)
    case Some(Arr(items)) => Some(items)
    case _ => None
  }

  function InterfacesOf(items: seq<Value>): Option<seq<RemoteInterface>> {
    if items == [] then Some([])
    else
      match (StringField(items[0], "name"), StringField(items[0], "ipv4"), InterfacesOf(items[1..]))
      case (Some(name), Some(ipv4), Some(others)) => Some([RemoteInterface(name, ipv4)] + others)
      case _ => None
  }

  function TextsOf(items: seq<Value>): Option<seq<string>> {
    if items == [] then Some([])
    else
      match (items[0], TextsOf(items[1..]))
      case (Str(text), Some(others)) => Some([text] + others)
      case _ => None
  }

  function ReportOf(v: Value): Option<DiscoveryReport> {
    var interfaces := match ItemsField(v, "interfaces") case Some(items) => InterfacesOf(items) case None => None;
    var warnings := match ItemsField(v, "warnings") case Some(items) => TextsOf(items) case None => None;
    match (StringField(v, "local_interface"), StringField(v, "ssh_ip"), StringField(v, "ssh_banner"))
    case (Some(local), Some(ip), Some(banner)) =>
      (match (StringField(v, "host_key_status"), StringField(v, "discovery_stage"))
       case (Some(status), Some(stage)) =>
         if interfaces.Some? && warnings.Some?
         then Some(DiscoveryReport(local, ip, banner, status, stage, interfaces.value, warnings.value))
         else None
       case _ => None)
    case _ => None
  }

  function ReadReport(text: string): Option<DiscoveryReport> {
    match ReadDocument(text)
    case Some(v) => ReportOf(v)
    case None => None
  }
}
