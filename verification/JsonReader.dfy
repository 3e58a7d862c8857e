// JsonReader: a reader of JSON objects whose members are strings, after sections 4 and 7 of
// RFC 8259.  It knows nothing of how the server writes its replies.
//
// Members come in the order of the text.  White space between tokens, which json.dump() does not
// write, is not read, and neither are escaped surrogates.
module JsonReader {
  import opened Wrappers

  type Member = (string, string)

  // What was read from the front of a text, and the text after it.
  datatype Reading<T> = Reading(value: T, rest: string)

  function HexValue(c: char): Option<int> {
    if '0' <= c <= '9' then Some(c as int - '0' as int)
    else if 'a' <= c <= 'f' then Some(c as int - 'a' as int + 10)
    else if 'A' <= c <= 'F' then Some(c as int - 'A' as int + 10)
    else None
  }

  // Four hexadecimal digits.
  function ReadCode(s: string): Option<Reading<int>> {
    if |s| < 4 then None
    else
      match (HexValue(s[0]), HexValue(s[1]), HexValue(s[2]), HexValue(s[3]))
      case (Some(a), Some(b), Some(c), Some(d)) => Some(Reading(((a * 16 + b) * 16 + c) * 16 + d, s[4..]))
      case _ => None
  }

  // What follows a backslash.
  function ReadEscape(s: string): (r: Option<Reading<char>>)
    ensures r.Some? ==> |r.value.rest| < |s|
  {
    if s == "" then None
    else
      var rest := s[1..];
      match s[0]
      case '\"' => Some(Reading('\"', rest))
      case '\\' => Some(Reading('\\', rest))
      case '/' => Some(Reading('/', rest))
      case 'b' => Some(Reading(8 as char, rest))
      case 'f' => Some(Reading(12 as char, rest))
      case 'n' => Some(Reading(10 as char, rest))
      case 'r' => Some(Reading(13 as char, rest))
      case 't' => Some(Reading(9 as char, rest))
      case 'u' =>
        (match ReadCode(rest)
         case Some(code) =>
           if 0 <= code.value < 0xD800 || 0xE000 <= code.value < 0x1_0000
           then Some(Reading(code.value as char, code.rest)) else None
         case None => None)
      case _ => None
  }

  // The next character of a string; control characters must be escaped.
  function ReadCharacter(s: string): (r: Option<Reading<char>>)
    ensures r.Some? ==> |r.value.rest| < |s|
  {
    if s == "" || s[0] < ' ' then None
    else if s[0] == '\\' then ReadEscape(s[1..])
    else Some(Reading(s[0], s[1..]))
  }

  // The rest of a string whose opening quote has been read.
  function ReadString(s: string): (r: Option<Reading<string>>)
    ensures r.Some? ==> |r.value.rest| < |s|
    decreases |s|
  {
    if s == "" then None
    else if s[0] == '\"' then Some(Reading("", s[1..]))
    else
      match ReadCharacter(s)
      case None => None
      case Some(first) =>
        match ReadString(first.rest)
        case None => None
        case Some(more) => Some(Reading([first.value] + more.value, more.rest))
  }

  function Expect(c: char, s: string): (r: Option<string>)
    ensures r.Some? ==> |r.value| < |s|
  {
    if s != "" && s[0] == c then Some(s[1..]) else None
  }

  function ReadQuoted(s: string): (r: Option<Reading<string>>)
    ensures r.Some? ==> |r.value.rest| < |s|
  {
    match Expect('\"', s)
    case None => None
    case Some(rest) => ReadString(rest)
  }

  function ReadMember(s: string): (r: Option<Reading<Member>>)
    ensures r.Some? ==> |r.value.rest| < |s|
  {
    match ReadQuoted(s)
    case None => None
    case Some(name) =>
      match Expect(':', name.rest)
      case None => None
      case Some(rest) =>
        match ReadQuoted(rest)
        case None => None
        case Some(value) => Some(Reading((name.value, value.value), value.rest))
  }

  // One member or more, and the end of the object and of the text.
  function ReadMembers(s: string): Option<seq<Member>>
    decreases |s|
  {
    match ReadMember(s)
    case None => None
    case Some(member) =>
      if member.rest == "}" then Some([member.value])
      else
        match Expect(',', member.rest)
        case None => None
        case Some(rest) =>
          match ReadMembers(rest)
          case None => None
          case Some(more) => Some([member.value] + more)
  }

  function ReadObject(s: string): Option<seq<Member>> {
    if s == "{}" then Some([])
    else
      match Expect('{', s)
      case None => None
      case Some(rest) => ReadMembers(rest)
  }
}
