// Replies: the JSON text of a reply, as sendErrorStatus, sendOkRead and sendOkWrite in
// core/src/Storage/StorageServer.cpp dump it: an object without white space, its members in
// alphabetical order.
module Replies {
  import opened JsonReader
  import opened Storage
  import opened Wrappers

  const HEX: string := "0123456789abcdef"

  // One character inside a JSON string.
  function EscapeChar(c: char): (r: string)
    ensures r != "" && r[0] != '\"'
  {
    if c == '\"' then "\\\""
    else if c == '\\' then "\\\\"
    else if c == 8 as char then "\\b"
    else if c == 9 as char then "\\t"
    else if c == 10 as char then "\\n"
    else if c == 12 as char then "\\f"
    else if c == 13 as char then "\\r"
    else if c < 32 as char then "\\u00" + [HEX[c as int / 16], HEX[c as int % 16]]
    else [c]
  }

  function Escape(s: Text): string {
    if s == "" then "" else EscapeChar(s[0]) + Escape(s[1..])
  }

  function DumpMember(m: Member): (r: string)
    ensures r != ""
  {
    "\"" + Escape(m.0) + "\":\"" + Escape(m.1) + "\""
  }

  function DumpMembers(ms: seq<Member>): (r: string)
    ensures r == "" ==> ms == []
  {
    if ms == [] then ""
    else if |ms| == 1 then DumpMember(ms[0])
    else DumpMember(ms[0]) + "," + DumpMembers(ms[1..])
  }

  function DumpObject(ms: seq<Member>): string {
    "{" + DumpMembers(ms) + "}"
  }

  // The members the three senders set, in the order of their names.
  function Dump(reply: Reply): string {
    match reply
    case Error(d) => DumpObject([("description", d), ("status", "error")])
    case OkRead(v) => DumpObject([("status", "ok"), ("value", v)])
    case OkWrite => DumpObject([("status", "ok")])
  }

  lemma DumpLength(reply: Reply)
    ensures |Dump(reply)| > 1
  {
  }

  // ---------------------------------------------------------------------------------------
  // What a reader makes of it
  // ---------------------------------------------------------------------------------------

  lemma HexDigit(n: int)
    requires 0 <= n < 16
    ensures HexValue(HEX[n]) == Some(n)
  {
  }

  lemma ReadZeroes(x: char, y: char, rest: string)
    requires HexValue(x).Some? && HexValue(y).Some?
    ensures ReadCode("00" + [x, y] + rest) == Some(Reading(HexValue(x).value * 16 + HexValue(y).value, rest))
  {
    var s := "00" + [x, y] + rest;
    assert s[0] == '0' && s[1] == '0' && s[2] == x && s[3] == y && s[4..] == rest;
  }

  lemma ReadsControl(c: char, rest: string)
    requires c < 32 as char
    ensures ReadEscape("u00" + [HEX[c as int / 16], HEX[c as int % 16]] + rest) == Some(Reading(c, rest))
  {
    hide ReadCode, HexValue;
    var x, y := HEX[c as int / 16], HEX[c as int % 16];
    HexDigit(c as int / 16);
    HexDigit(c as int % 16);
    ReadZeroes(x, y, rest);
    var s := "u00" + [x, y] + rest;
    assert s[0] == 'u' && s[1..] == "00" + [x, y] + rest;
  }

  // Every escape is read as the character it stands for.
  lemma ReadsCharacter(c: char, rest: string)
    ensures ReadCharacter(EscapeChar(c) + rest) == Some(Reading(c, rest))
  {
    hide ReadCode;
    var s := EscapeChar(c) + rest;
    if |EscapeChar(c)| == 1 {
      assert s[1..] == rest;
    } else if |EscapeChar(c)| == 2 {
      assert s[1..][1..] == rest;
    } else {
      ReadsControl(c, rest);
      assert s[1..] == "u00" + [HEX[c as int / 16], HEX[c as int % 16]] + rest;
    }
  }

  lemma {:induction false} ReadsString(s: Text, rest: string)
    ensures ReadString(Escape(s) + "\"" + rest) == Some(Reading(s, rest))
  {
    hide EscapeChar, ReadCharacter;
    var t := Escape(s) + "\"" + rest;
    if s == "" {
      assert t == "\"" + rest;
    } else {
      var first, more := EscapeChar(s[0]), Escape(s[1..]) + "\"" + rest;
      assert t == first + more;
      ReadsCharacter(s[0], more);
      ReadsString(s[1..], rest);
      assert [s[0]] + s[1..] == s;
    }
  }

  lemma ReadsQuoted(s: Text, rest: string)
    ensures ReadQuoted("\"" + Escape(s) + "\"" + rest) == Some(Reading(s, rest))
  {
    hide Escape, ReadString;
    var t := "\"" + Escape(s) + "\"" + rest;
    assert t[1..] == Escape(s) + "\"" + rest;
    ReadsString(s, rest);
  }

  lemma ReadsMember(m: Member, rest: string)
    ensures ReadMember(DumpMember(m) + rest) == Some(Reading(m, rest))
  {
    hide Escape, ReadQuoted;
    var value := "\"" + Escape(m.1) + "\"" + rest;
    assert DumpMember(m) + rest == "\"" + Escape(m.0) + "\"" + (":" + value);
    ReadsQuoted(m.0, ":" + value);
    assert (":" + value)[0] == ':' && (":" + value)[1..] == value;
    ReadsQuoted(m.1, rest);
  }

  lemma {:induction false} ReadsMembers(ms: seq<Member>)
    requires ms != []
    ensures ReadMembers(DumpMembers(ms) + "}") == Some(ms)
  {
    hide DumpMember, ReadMember;
    if |ms| == 1 {
      ReadsMember(ms[0], "}");
      assert [ms[0]] == ms;
    } else {
      var more := DumpMembers(ms[1..]) + "}";
      assert DumpMembers(ms) + "}" == DumpMember(ms[0]) + ("," + more);
      ReadsMember(ms[0], "," + more);
      assert ("," + more)[0] == ',' && ("," + more)[1..] == more;
      ReadsMembers(ms[1..]);
      assert [ms[0]] + ms[1..] == ms;
    }
  }

  lemma ReadsBraces(body: string)
    ensures ReadObject("{}") == Some([])
    ensures body != "}" ==> ReadObject("{" + body) == ReadMembers(body)
  {
    hide ReadMembers;
    assert ("{" + body)[1..] == body;
    assert "{}"[1..] == "}";
  }

  // Reading a dumped object gives its members, in their order, whatever their texts contain.
  lemma ReadsObject(ms: seq<Member>)
    ensures ReadObject(DumpObject(ms)) == Some(ms)
  {
    hide ReadMembers, ReadObject;
    if ms == [] {
      assert DumpObject(ms) == "{}";
      ReadsBraces("");
    } else {
      hide DumpMembers;
      var members := DumpMembers(ms);
      var body := members + "}";
      assert DumpObject(ms) == "{" + body;
      assert |body| == |members| + 1;
      ReadsMembers(ms);
      ReadsBraces(body);
    }
  }

  // What a JSON reader sees of each kind of reply.
  lemma ReadsReply(reply: Reply)
    ensures reply.Error? ==>
              ReadObject(Dump(reply)) == Some([("description", reply.description), ("status", "error")])
    ensures reply.OkRead? ==> ReadObject(Dump(reply)) == Some([("status", "ok"), ("value", reply.value)])
    ensures reply.OkWrite? ==> ReadObject(Dump(reply)) == Some([("status", "ok")])
  {
    hide ReadObject, DumpObject;
    match reply
    case Error(d) => ReadsObject([("description", d), ("status", "error")]);
    case OkRead(v) => ReadsObject([("status", "ok"), ("value", v)]);
    case OkWrite => ReadsObject([("status", "ok")]);
  }

  // Different replies have different texts, whatever the stored values contain.
  lemma DumpInjective(p: Reply, q: Reply)
    requires Dump(p) == Dump(q)
    ensures p == q
  {
    hide ReadObject, Dump;
    ReadsReply(p);
    ReadsReply(q);
  }
}
