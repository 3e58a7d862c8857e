// Storage: the key-value handler of core/src/Storage/StorageServer.cpp, one message at a time.
//
// Parsing and dumping JSON is not modelled: a message arrives as the value its text parses to,
// and a reply is kept as the value that is dumped.
module Storage {
  import opened Wrappers

  type Text = string

  const REQUEST: Text := "request"
  const KEY: Text := "key"
  const VALUE: Text := "value"
  const REQUEST_READ: Text := "read"
  const REQUEST_WRITE: Text := "write"

  datatype Field = Str(text: Text) | NotString
  datatype Json = Object(fields: map<Text, Field>) | NotObject

  // A message, as nlohmann::json::parse sees it: it throws, or returns a value.
  datatype Message = NotJson | Parsed(json: Json)

  datatype Reply = Error(description: Text) | OkRead(value: Text) | OkWrite

  const PARSE_ERROR: Reply := Error("json parse error")
  const KEY_NOT_FOUND: Reply := Error("key not found in storage")
  const BAD_REQUEST: Reply := Error("request must be read/write")

  function MissingField(name: Text): Reply {
    Error("field" + name + " not found")
  }

  // json.contains(name)
  predicate Contains(json: Json, name: Text) {
    json.Object? && name in json.fields
  }

  // json[name].get<string>(), which throws unless the field is there and holds a string.
  function GetString(json: Json, name: Text): Option<Text> {
    if Contains(json, name) && json.fields[name].Str? then Some(json.fields[name].text) else None
  }

  // ---------------------------------------------------------------------------------------
  // What a message means
  // ---------------------------------------------------------------------------------------

  datatype Operation = Read(key: Text) | Write(key: Text, value: Text) | Reject(errors: seq<Reply>)

  // The required fields, in the order they are looked for; `value` only once the message is known
  // to be a write.
  function Required(m: Message): seq<Text> {
    if m.NotJson? then []
    else if GetString(m.json, REQUEST) == Some(REQUEST_WRITE) && GetString(m.json, KEY).Some? then [REQUEST, KEY, VALUE]
    else [REQUEST, KEY]
  }

  function Missing(m: Message, names: seq<Text>): seq<Text>
    requires m.Parsed?
  {
    if names == [] then []
    else (if Contains(m.json, names[0]) then [] else [names[0]]) + Missing(m, names[1..])
  }

  function MissingFields(m: Message): seq<Text> {
    if m.NotJson? then [] else Missing(m, Required(m))
  }

  // A message is well formed when its fields are strings and it asks for a read or a write.
  function Meaning(m: Message): Option<Operation> {
    if m.NotJson? then None
    else
      match (GetString(m.json, REQUEST), GetString(m.json, KEY), GetString(m.json, VALUE))
      case (Some(r), Some(k), _) =>
        if r == REQUEST_READ then Some(Read(k))
        else if r != REQUEST_WRITE then None
        else if GetString(m.json, VALUE).Some? then Some(Write(k, GetString(m.json, VALUE).value)) else None
      case _ => None
  }

  // The source reports a missing `value` with the name of the key field.
  function MissingReplies(names: seq<Text>): (r: seq<Reply>)
    ensures |r| == |names|
  {
    seq(|names|, i requires 0 <= i < |names| => MissingField(if names[i] == VALUE then KEY else names[i]))
  }

  // Request and key are strings, but the request is neither read nor write.
  predicate AsksForSomethingElse(m: Message) {
    && m.Parsed? && GetString(m.json, KEY).Some? && GetString(m.json, REQUEST).Some?
    && GetString(m.json, REQUEST).value != REQUEST_READ && GetString(m.json, REQUEST).value != REQUEST_WRITE
  }

  function Interpret(m: Message): Operation {
    if Meaning(m).Some? then Meaning(m).value
    else Reject(MissingReplies(MissingFields(m)) + [if AsksForSomethingElse(m) then BAD_REQUEST else PARSE_ERROR])
  }

  // ---------------------------------------------------------------------------------------
  // The sequential map
  // ---------------------------------------------------------------------------------------

  type Data = map<Text, Text>

  function DataAfter(d: Data, op: Operation): Data {
    if op.Write? then d[op.key := op.value] else d
  }

  function Replies(d: Data, op: Operation): seq<Reply> {
    match op
    case Read(k) => [if k in d then OkRead(d[k]) else KEY_NOT_FOUND]
    case Write(_, _) => [OkWrite]
    case Reject(errors) => errors
  }

  lemma {:induction false} NothingMissing(m: Message, names: seq<Text>)
    requires m.Parsed? && forall n | n in names :: Contains(m.json, n)
    ensures Missing(m, names) == []
  {
    if names != [] {
      assert names[0] in names;
      NothingMissing(m, names[1..]);
    }
  }

  // One error for every required field that is missing, and one final reply.
  lemma ReplyCount(d: Data, m: Message)
    ensures |Replies(d, Interpret(m))| == 1 + |MissingFields(m)|
  {
    if Meaning(m).Some? {
      NothingMissing(m, Required(m));
    }
  }

  // ---------------------------------------------------------------------------------------
  // What a client may rely on, in the fields of its message
  // ---------------------------------------------------------------------------------------

  predicate HasField(m: Message, name: Text) {
    m.Parsed? && m.json.Object? && name in m.json.fields
  }

  predicate IsText(m: Message, name: Text) {
    HasField(m, name) && m.json.fields[name].Str?
  }

  predicate HasText(m: Message, name: Text, text: Text) {
    HasField(m, name) && m.json.fields[name] == Str(text)
  }

  // The map and the replies after a message, given the map before it.
  predicate Handled(m: Message, before: Data, after: Data, replies: seq<Reply>) {
    if IsText(m, "request") && IsText(m, "key") then
      var k := m.json.fields["key"].text;
      if HasText(m, "request", "write") && IsText(m, "value") then
        after == before[k := m.json.fields["value"].text] && replies == [OkWrite]
      else
        && after == before
        && replies == if HasText(m, "request", "read") then
                        [if k in before then OkRead(before[k]) else Error("key not found in storage")]
                      else if !HasText(m, "request", "write") then
                        [Error("request must be read/write")]
                      else if HasField(m, "value") then
                        [Error("json parse error")]
                      else
                        [Error("fieldkey not found"), Error("json parse error")]
    else
      && after == before
      && replies == (if m.Parsed? && !HasField(m, "request") then [Error("fieldrequest not found")] else [])
                    + (if m.Parsed? && !HasField(m, "key") then [Error("fieldkey not found")] else [])
                    + [Error("json parse error")]
  }

  // The errors for missing fields, written out.
  lemma MissingSteps(m: Message)
    requires m.Parsed?
    ensures var json := m.json;
            MissingReplies(MissingFields(m))
            == (if Contains(json, REQUEST) then [] else [MissingField(REQUEST)])
               + (if Contains(json, KEY) then [] else [MissingField(KEY)])
               + (if VALUE !in Required(m) || Contains(json, VALUE) then [] else [MissingField(KEY)])
  {
    var json := m.json;
    assert [VALUE][1..] == [] && [KEY, VALUE][1..] == [VALUE] && [REQUEST, KEY, VALUE][1..] == [KEY, VALUE];
    assert [KEY][1..] == [] && [REQUEST, KEY][1..] == [KEY];
    assert Missing(m, [VALUE]) == if Contains(json, VALUE) then [] else [VALUE];
    assert Missing(m, [KEY]) == if Contains(json, KEY) then [] else [KEY];
    assert Missing(m, [KEY, VALUE]) == Missing(m, [KEY]) + Missing(m, [VALUE]);
    assert REQUEST != VALUE && KEY != VALUE;
  }

  lemma MissingTexts()
    ensures MissingField(REQUEST) == Error("fieldrequest not found")
    ensures MissingField(KEY) == Error("fieldkey not found")
  {
    assert "field" + REQUEST + " not found" == "fieldrequest not found";
    assert "field" + KEY + " not found" == "fieldkey not found";
  }

  // The fields as the handler looks them up.
  lemma LookedUp(m: Message)
    requires m.Parsed?
    ensures Contains(m.json, REQUEST) <==> HasField(m, "request")
    ensures Contains(m.json, KEY) <==> HasField(m, "key")
    ensures Contains(m.json, VALUE) <==> HasField(m, "value")
    ensures GetString(m.json, REQUEST) == if IsText(m, "request") then Some(m.json.fields["request"].text) else None
    ensures GetString(m.json, KEY) == if IsText(m, "key") then Some(m.json.fields["key"].text) else None
    ensures GetString(m.json, VALUE) == if IsText(m, "value") then Some(m.json.fields["value"].text) else None
  {
  }

  lemma MeaningOfOperation(m: Message, d: Data)
    requires Meaning(m).Some?
    ensures Handled(m, d, DataAfter(d, Interpret(m)), Replies(d, Interpret(m)))
  {
    hide GetString, Contains, MissingReplies, MissingFields;
    LookedUp(m);
  }

  lemma MeaningOfIncomplete(m: Message, d: Data)
    requires m.Parsed? && !(IsText(m, "request") && IsText(m, "key"))
    ensures Handled(m, d, DataAfter(d, Interpret(m)), Replies(d, Interpret(m)))
  {
    hide GetString, Contains, MissingReplies, MissingFields, MissingField, IsText, HasField, HasText;
    LookedUp(m);
    MissingTexts();
    MissingSteps(m);
    var request, key := if HasField(m, "request") then [] else [MissingField(REQUEST)],
                        if HasField(m, "key") then [] else [MissingField(KEY)];
    assert request + key + [] + [PARSE_ERROR] == request + key + [PARSE_ERROR];
  }

  lemma MeaningOfRejected(m: Message, d: Data)
    requires m.Parsed? && IsText(m, "request") && IsText(m, "key") && Meaning(m).None?
    ensures Handled(m, d, DataAfter(d, Interpret(m)), Replies(d, Interpret(m)))
  {
    hide GetString, Contains, MissingReplies, MissingFields, MissingField;
    LookedUp(m);
    MissingTexts();
    MissingSteps(m);
    var key, last := MissingField(KEY), PARSE_ERROR;
    assert [] + [] + [key] + [last] == [key, last] && [] + [] + [] + [last] == [last];
    assert [] + [] + [] + [BAD_REQUEST] == [BAD_REQUEST];
  }

  lemma MeaningOfNoJson(m: Message, d: Data)
    requires m.NotJson?
    ensures Handled(m, d, DataAfter(d, Interpret(m)), Replies(d, Interpret(m)))
  {
    assert MissingReplies(MissingFields(m)) == [];
  }

  // Every message has the meaning its fields give it, the malformed ones included.
  lemma MeaningOfFields(m: Message, d: Data)
    ensures Handled(m, d, DataAfter(d, Interpret(m)), Replies(d, Interpret(m)))
  {
    hide Meaning, Interpret, DataAfter, Replies, Handled;
    if m.NotJson? {
      MeaningOfNoJson(m, d);
    } else if Meaning(m).Some? {
      MeaningOfOperation(m, d);
    } else if IsText(m, "request") && IsText(m, "key") {
      MeaningOfRejected(m, d);
    } else {
      MeaningOfIncomplete(m, d);
    }
  }

  // A message that stores a value under the key.
  predicate Stores(m: Message, k: Text) {
    HasText(m, "request", "write") && HasText(m, "key", k) && IsText(m, "value")
  }

  function StoredValue(m: Message): Text {
    if IsText(m, "value") then m.json.fields["value"].text else ""
  }

  predicate AsksFor(m: Message, k: Text) {
    HasText(m, "request", "read") && HasText(m, "key", k)
  }

  // ---------------------------------------------------------------------------------------
  // Histories
  // ---------------------------------------------------------------------------------------

  function Run(ms: seq<Message>): Data {
    if ms == [] then map[] else DataAfter(Run(ms[..|ms| - 1]), Interpret(ms[|ms| - 1]))
  }

  // `i` is the last message that stores a value under `k`.
  predicate LastWrite(ms: seq<Message>, i: nat, k: Text) {
    i < |ms| && Stores(ms[i], k) && forall j | i < j < |ms| :: !Stores(ms[j], k)
  }

  lemma StoringMeans(m: Message, d: Data, k: Text)
    ensures k in DataAfter(d, Interpret(m)) <==> k in d || Stores(m, k)
    ensures Stores(m, k) ==> DataAfter(d, Interpret(m))[k] == StoredValue(m)
    ensures !Stores(m, k) && k in d ==> DataAfter(d, Interpret(m))[k] == d[k]
  {
    hide Interpret, DataAfter, Replies;
    MeaningOfFields(m, d);
  }

  lemma {:induction false} LastWriteExists(ms: seq<Message>, k: Text, i: nat)
    requires i < |ms| && Stores(ms[i], k)
    ensures exists j :: LastWrite(ms, j, k)
    decreases |ms| - i
  {
    hide Stores;
    if j :| i < j < |ms| && Stores(ms[j], k) {
      LastWriteExists(ms, k, j);
    } else {
      assert LastWrite(ms, i, k);
    }
  }

  lemma {:induction false} NotStored(ms: seq<Message>, k: Text)
    requires forall i | 0 <= i < |ms| :: !Stores(ms[i], k)
    ensures k !in Run(ms)
  {
    hide Interpret, DataAfter, Stores;
    if ms != [] {
      var n := |ms| - 1;
      NotStored(ms[..n], k);
      StoringMeans(ms[n], Run(ms[..n]), k);
    }
  }

  lemma {:induction false} LastStored(ms: seq<Message>, k: Text, i: nat)
    requires LastWrite(ms, i, k)
    ensures k in Run(ms) && Run(ms)[k] == StoredValue(ms[i])
  {
    hide Interpret, DataAfter, Stores, StoredValue;
    var n := |ms| - 1;
    StoringMeans(ms[n], Run(ms[..n]), k);
    if i < n {
      assert LastWrite(ms[..n], i, k);
      LastStored(ms[..n], k, i);
    }
  }

  // The map holds the last value stored under every key, and no other key.
  lemma RunIsLastWrites(ms: seq<Message>, k: Text)
    ensures k in Run(ms) <==> exists i :: 0 <= i < |ms| && Stores(ms[i], k)
    ensures forall i | 0 <= i < |ms| && LastWrite(ms, i, k) :: Run(ms)[k] == StoredValue(ms[i])
  {
    hide Run, Stores, StoredValue, LastWrite;
    if i :| 0 <= i < |ms| && Stores(ms[i], k) {
      LastWriteExists(ms, k, i);
      var j :| LastWrite(ms, j, k);
      LastStored(ms, k, j);
    } else {
      NotStored(ms, k);
    }
    forall i | 0 <= i < |ms| && LastWrite(ms, i, k)
      ensures k in Run(ms) && Run(ms)[k] == StoredValue(ms[i])
    {
      LastStored(ms, k, i);
    }
  }

  lemma RunSnoc(ms: seq<Message>, m: Message)
    ensures Run(ms + [m]) == DataAfter(Run(ms), Interpret(m))
  {
    hide Interpret;
    assert (ms + [m])[..|ms|] == ms;
  }

  // A read answers with the latest value stored before it ...
  lemma ReadsLatestWrite(ms: seq<Message>, m: Message, k: Text, i: nat)
    requires AsksFor(m, k) && LastWrite(ms, i, k)
    ensures Replies(Run(ms), Interpret(m)) == [OkRead(StoredValue(ms[i]))]
  {
    hide Interpret, Run, DataAfter, Replies;
    RunIsLastWrites(ms, k);
    MeaningOfFields(m, Run(ms));
  }

  // ... or with an error when there is none; there is no third case.
  lemma ReadsNothing(ms: seq<Message>, m: Message, k: Text)
    requires AsksFor(m, k)
    ensures Replies(Run(ms), Interpret(m)) == [Error("key not found in storage")]
       <==> !exists i :: LastWrite(ms, i, k)
  {
    hide Interpret, Run, DataAfter, Replies, Stores;
    RunIsLastWrites(ms, k);
    MeaningOfFields(m, Run(ms));
    if i :| 0 <= i < |ms| && Stores(ms[i], k) {
      LastWriteExists(ms, k, i);
    }
  }

  // A message that stores nothing leaves the map as it is.
  lemma OnlyWritesChange(ms: seq<Message>, m: Message)
    requires forall k :: !Stores(m, k)
    ensures Run(ms + [m]) == Run(ms)
  {
    hide Run, Interpret, DataAfter;
    RunSnoc(ms, m);
    var after := DataAfter(Run(ms), Interpret(m));
    forall k
      ensures k in after <==> k in Run(ms)
      ensures k in Run(ms) ==> after[k] == Run(ms)[k]
    {
      StoringMeans(m, Run(ms), k);
    }
  }

  // ---------------------------------------------------------------------------------------
  // The server object
  // ---------------------------------------------------------------------------------------

  class StorageServer {
    var dataStorage: map<Text, Text>

    constructor ()
      ensures dataStorage == map[]
    {
      dataStorage := map[];
    }

    method KeyExists(key: Text) returns (found: bool)
      ensures found <==> key in dataStorage
    {
      found := key in dataStorage;
    }

    method ReadValue(key: Text) returns (value: Text)
      ensures value == if key in dataStorage then dataStorage[key] else ""
    {
      if key in dataStorage {
        return dataStorage[key];
      }
      return "";
    }

    method WriteValue(key: Text, value: Text)
      modifies this
      ensures dataStorage == old(dataStorage)[key := value]
    {
      dataStorage := dataStorage[key := value];
    }

    // handle_read_message.  Every exception ends in the last reply; a missing field is reported
    // and then still asked for, which throws.
    method HandleReadMessage(m: Message) returns (replies: seq<Reply>)
      modifies this
      ensures dataStorage == DataAfter(old(dataStorage), Interpret(m))
      ensures replies == Replies(old(dataStorage), Interpret(m))
      ensures Handled(m, old(dataStorage), dataStorage, replies)
    {
      hide Handled, Missing, MissingField;
      MeaningOfFields(m, dataStorage);
      replies := [];
      if m.NotJson? {
        return [PARSE_ERROR];
      }
      var json := m.json;
      MissingSteps(m);
      if !Contains(json, REQUEST) {
        replies := replies + [MissingField(REQUEST)];
      }
      if !Contains(json, KEY) {
        replies := replies + [MissingField(KEY)];
      }
      var request, key := GetString(json, REQUEST), GetString(json, KEY);
      if request.None? || key.None? {
        return replies + [PARSE_ERROR];
      }
      if request.value == REQUEST_READ {
        var found := KeyExists(key.value);
        if found {
          var value := ReadValue(key.value);
          replies := replies + [OkRead(value)];
        } else {
          replies := replies + [KEY_NOT_FOUND];
        }
      } else if request.value == REQUEST_WRITE {
        if !Contains(json, VALUE) {
          replies := replies + [MissingField(KEY)];
        }
        var value := GetString(json, VALUE);
        if value.None? {
          return replies + [PARSE_ERROR];
        }
        WriteValue(key.value, value.value);
        replies := replies + [OkWrite];
      } else {
        replies := replies + [BAD_REQUEST];
      }
    }
  }
}
