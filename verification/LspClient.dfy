/** The language-server client of scripts/format-staged.py: requests numbered from 1, answered out
    of a stream in which the server's own requests and notifications are interleaved.

    JSON-RPC 2.0, section 4 ("Request object") and section 5 ("Response object"). */
module LspClient {
  import opened Framing
  import opened Options
  import opened Selection

  datatype Json =
    | Null
    | Bool(b: bool)
    | Num(n: int)
    | Str(s: string)
    | Arr(items: seq<Json>)
    | Obj(fields: map<string, Json>)

  /** json.dumps(...).encode("utf-8") and json.loads. */
  datatype Codec = Codec(dumps: Json -> string, loads: string -> Option<Json>)

  ghost predicate Lawful(codec: Codec) {
    forall m :: codec.loads(codec.dumps(m)) == Some(m)
  }

  datatype Outcome =
    | Returned(result: Json)
    | Raised(error: Json)          // RuntimeError: the server answered with an error
    | Broken(why: ReadError)       // the stream ended or was malformed
    | NotJson                      // JSONDecodeError
    | NotAnObject                  // AttributeError: the message has no .get

  // ---------------------------------------------------------------- messages

  const VERSION := Str("2.0")

  function RequestMessage(id: nat, name: string, params: Json): Json {
    Obj(map["jsonrpc" := VERSION, "id" := Num(id), "method" := Str(name), "params" := params])
  }

  function Notification(name: string, params: Json): Json {
    Obj(map["jsonrpc" := VERSION, "method" := Str(name), "params" := params])
  }

  function NullReply(id: Json): Json {
    Obj(map["jsonrpc" := VERSION, "id" := id, "result" := Null])
  }

  /** Python's == between a JSON value and an int: booleans count as 0 and 1. */
  predicate EqualsInt(j: Json, n: int) {
    match j
    case Num(k) => k == n
    case Bool(b) => n == if b then 1 else 0
    case _ => false
  }

  predicate Answers(msg: Json, id: nat) {
    && msg.Obj?
    && "id" in msg.fields && EqualsInt(msg.fields["id"], id)
    && ("result" in msg.fields || "error" in msg.fields)
  }

  /** Section 5 of JSON-RPC 2.0: a response has the id of its request, and a result or an error. */
  predicate StandardAnswers(msg: Json, id: nat) {
    && msg.Obj?
    && "id" in msg.fields && msg.fields["id"] == Num(id)
    && ("result" in msg.fields || "error" in msg.fields)
  }

  /** The client takes a message for the answer exactly if the standard does, or if its id is `true` for
      request 1 or `false` for request 0: only a request with a larger id is safe from boolean ids. */
  lemma OnlyOwnId(id: nat)
    ensures (forall msg :: Answers(msg, id) <==> StandardAnswers(msg, id)) <==> id > 1
    ensures forall msg :: Answers(msg, id) <==>
              || StandardAnswers(msg, id)
              || (&& msg.Obj? && "id" in msg.fields && ("result" in msg.fields || "error" in msg.fields)
                  && ((id == 1 && msg.fields["id"] == Bool(true)) || (id == 0 && msg.fields["id"] == Bool(false))))
  {
    if id <= 1 {
      var msg := Obj(map["id" := Bool(id == 1), "result" := Null]);
      assert Answers(msg, id) && !StandardAnswers(msg, id);
    }
  }

  /** A message that answers request 1 to the client and not to the standard. */
  lemma TrueAnswersOne()
    ensures var msg := Obj(map["id" := Bool(true), "result" := Null]); Answers(msg, 1) && !StandardAnswers(msg, 1)
  {
    assert EqualsInt(Bool(true), 1);
  }

  /** A request from the server, which must be replied to. */
  predicate AsksClient(msg: Json) {
    msg.Obj? && "id" in msg.fields && "method" in msg.fields
  }

  function Answer(msg: Json): Outcome
    requires msg.Obj? && ("result" in msg.fields || "error" in msg.fields)
  {
    if "error" in msg.fields then Raised(msg.fields["error"]) else Returned(msg.fields["result"])
  }

  // ---------------------------------------------------------------- a stream as a list of messages

  /** What one read of the client yields: a message, or the exception it ends in. */
  datatype Item = Message(msg: Json) | Fault(outcome: Outcome)

  function Load(codec: Codec, frame: Frame): Item {
    match frame
    case Failed(why, _) => Fault(Broken(why))
    case Body(body, _) =>
      match codec.loads(body)
      case None => Fault(NotJson)
      case Some(msg) => if msg.Obj? then Message(msg) else Fault(NotAnObject)
  }

  /** All that can be read from a stream. */
  function Items(codec: Codec, data: string): seq<Item>
    decreases |data|
  {
    if data == [] then [] else
      var frame := ReadFrame(data);
      ReadShrinks(data);
      [Load(codec, frame)] + Items(codec, frame.rest)
  }

  // ---------------------------------------------------------------- the wait loop

  datatype Wait = Wait(outcome: Outcome, replies: seq<Json>, rest: seq<Item>) {
    function Prefixed(earlier: seq<Json>): Wait {
      this.(replies := earlier + replies)
    }
  }

  /** Read until the answer to `id`; one null reply per request of the server on the way. */
  function Await(items: seq<Item>, id: nat): Wait {
    if items == [] then Wait(Broken(Closed), [], [])
    else if items[0].Fault? then Wait(items[0].outcome, [], items[1..])
    else if Answers(items[0].msg, id) then Wait(Answer(items[0].msg), [], items[1..])
    else Await(items[1..], id).Prefixed(Replies([items[0].msg]))
  }

  /** The replies owed for a list of messages from the server. */
  function Replies(messages: seq<Json>): seq<Json> {
    if messages == [] then []
    else if AsksClient(messages[0]) then [NullReply(messages[0].fields["id"])] + Replies(messages[1..])
    else Replies(messages[1..])
  }

  function Encode(codec: Codec, messages: seq<Json>): string {
    if messages == [] then [] else WriteFrame(codec.dumps(messages[0])) + Encode(codec, messages[1..])
  }

  lemma {:induction false} EncodeAppend(codec: Codec, a: seq<Json>, b: seq<Json>)
    ensures Encode(codec, a + b) == Encode(codec, a) + Encode(codec, b)
  {
    if a == [] {
      assert a + b == b;
    } else {
      assert (a + b)[1..] == a[1..] + b;
      EncodeAppend(codec, a[1..], b);
      assert WriteFrame(codec.dumps(a[0])) + (Encode(codec, a[1..]) + Encode(codec, b)) ==
             WriteFrame(codec.dumps(a[0])) + Encode(codec, a[1..]) + Encode(codec, b);
    }
  }

  /** The ids of the requests in a list of messages. */
  function RequestIds(messages: seq<Json>): seq<Json> {
    if messages == [] then []
    else if AsksClient(messages[0]) then [messages[0].fields["id"]] + RequestIds(messages[1..])
    else RequestIds(messages[1..])
  }

  function OneTo(n: nat): seq<Json> {
    if n == 0 then [] else OneTo(n - 1) + [Num(n)]
  }

  lemma {:induction false} RequestIdsAppend(a: seq<Json>, b: seq<Json>)
    ensures RequestIds(a + b) == RequestIds(a) + RequestIds(b)
  {
    if a == [] {
      assert a + b == b;
    } else {
      assert (a + b)[1..] == a[1..] + b;
      RequestIdsAppend(a[1..], b);
    }
  }

  /** With `sent` on the wire and `now` left to read, the wait that began with `before` on the wire
      and `items` to read comes to the same end. */
  ghost predicate OnTheWay(items: seq<Item>, id: nat, before: seq<Json>, sent: seq<Json>, now: seq<Item>) {
    var whole, left := Await(items, id), Await(now, id);
    && whole.outcome == left.outcome
    && whole.rest == left.rest
    && before + whole.replies == sent + left.replies
  }

  lemma StepOn(items: seq<Item>, id: nat, before: seq<Json>, sent: seq<Json>, now: seq<Item>)
    requires OnTheWay(items, id, before, sent, now)
    requires now != [] && now[0].Message? && !Answers(now[0].msg, id)
    ensures OnTheWay(items, id, before, sent + Replies([now[0].msg]), now[1..])
  {
    var replies, left := Replies([now[0].msg]), Await(now[1..], id).replies;
    assert sent + (replies + left) == sent + replies + left;
  }

  lemma Arrive(items: seq<Item>, id: nat, before: seq<Json>, sent: seq<Json>, now: seq<Item>)
    requires OnTheWay(items, id, before, sent, now)
    requires now == [] || now[0].Fault? || Answers(now[0].msg, id)
    ensures sent == before + Await(items, id).replies
    ensures Await(items, id).rest == if now == [] then [] else now[1..]
    ensures Await(items, id).outcome ==
            if now == [] then Broken(Closed) else if now[0].Fault? then now[0].outcome else Answer(now[0].msg)
  {
    assert sent + [] == sent;
  }

  lemma PrefixedTwice(wait: Wait, a: seq<Json>, b: seq<Json>)
    ensures wait.Prefixed(b).Prefixed(a) == wait.Prefixed(a + b)
  {
    assert a + (b + wait.replies) == a + b + wait.replies;
  }

  // ---------------------------------------------------------------- the client

  /** A pipe from the server: bytes it has produced and that nobody has read yet. */
  class Pipe {
    var data: string

    constructor (data: string)
      ensures this.data == data
    {
      this.data := data;
    }

    method ReadLine() returns (line: string)
      modifies this
      ensures old(data) == line + data && |line| == LineLength(old(data))
    {
      var n := LineLength(data);
      line := data[..n];
      data := data[n..];
    }

    /** Any non-empty part of what is asked for, as long as there are bytes left. */
    method Read(most: nat) returns (chunk: string)
      requires most > 0
      modifies this
      ensures old(data) == chunk + data && |chunk| <= most
      ensures chunk == [] <==> old(data) == []
    {
      if data == [] {
        chunk := [];
      } else {
        var n: nat :| 1 <= n <= most && n <= |data|;
        chunk := data[..n];
        data := data[n..];
      }
    }
  }

  class Client {
    const codec: Codec
    const stdout: Pipe
    var nextId: nat
    /** Everything written to the server's standard input. */
    var stdin: string
    /** The messages behind `stdin`. */
    ghost var sent: seq<Json>

    /** The requests among the messages sent carry the ids 1, 2, 3, ... in this order. */
    ghost predicate Valid()
      reads this
    {
      && stdin == Encode(codec, sent)
      && nextId > 0
      && RequestIds(sent) == OneTo(nextId - 1)
    }

    constructor (codec: Codec, stdout: Pipe)
      ensures Valid() && this.codec == codec && this.stdout == stdout
      ensures sent == [] && nextId == 1
    {
      this.codec := codec;
      this.stdout := stdout;
      nextId := 1;
      stdin := [];
      sent := [];
    }

    method Send(msg: Json)
      requires stdin == Encode(codec, sent)
      modifies this`stdin, this`sent
      ensures stdin == Encode(codec, sent) && sent == old(sent) + [msg]
    {
      var body := codec.dumps(msg);
      EncodeAppend(codec, sent, [msg]);
      stdin := stdin + WriteFrame(body);
      assert Encode(codec, [msg]) == WriteFrame(body) + Encode(codec, [msg][1..]);
      sent := sent + [msg];
    }

    /** The header section at the head of the stream. */
    method ReadFields() returns (header: Header)
      modifies stdout
      ensures header == ReadHeader(old(stdout.data), map[])
      ensures stdout.data == header.rest
    {
      var fields: map<string, string> := map[];
      ghost var data := stdout.data;
      while true
        invariant ReadHeader(stdout.data, fields) == ReadHeader(data, map[])
        decreases |stdout.data|
      {
        ghost var here := stdout.data;
        var line := stdout.ReadLine();
        assert here[..|line|] == line && here[|line|..] == stdout.data;
        if line == [] {
          return Malformed(Closed, []);
        }
        if !IsAscii(line) {
          return Malformed(NotAscii, stdout.data);
        }
        line := StripRight(line, LINE_END);
        if line == [] {
          return Fields(fields, stdout.data);
        }
        fields := fields[Lower(Strip(Key(line))) := Strip(Value(line))];
      }
    }

    /** `length` bytes of body, whatever short reads the pipe makes. */
    method ReadBody(length: int) returns (frame: Frame)
      modifies stdout
      ensures frame == Take(old(stdout.data), length)
      ensures stdout.data == frame.rest
    {
      var body := [];
      ghost var data := stdout.data;
      while |body| < length
        invariant data == body + stdout.data
        invariant |body| <= length || body == []
      {
        var chunk := stdout.Read(length - |body|);
        if chunk == [] {
          return Failed(ClosedMidMessage, []);
        }
        body := body + chunk;
      }
      if body != [] {
        assert data[..length] == body && data[length..] == stdout.data;
      }
      frame := Body(body, stdout.data);
    }

    /** The frame at the head of the stream. */
    method Read() returns (frame: Frame)
      modifies stdout
      ensures frame == ReadFrame(old(stdout.data))
      ensures stdout.data == frame.rest
    {
      var header := ReadFields();
      if header.Malformed? {
        return Failed(header.error, header.rest);
      }
      if LENGTH_KEY !in header.fields {
        return Failed(NoLength, header.rest);
      }
      var length := ParseInt(header.fields[LENGTH_KEY]);
      if length == None {
        return Failed(BadLength, header.rest);
      }
      frame := ReadBody(length.value);
    }

    method Request(name: string, params: Json) returns (outcome: Outcome)
      requires Valid()
      modifies this, stdout
      ensures Valid() && nextId == old(nextId) + 1
      ensures var wait := Await(Items(codec, old(stdout.data)), old(nextId));
              && outcome == wait.outcome
              && sent == old(sent) + [RequestMessage(old(nextId), name, params)] + wait.replies
              && Items(codec, stdout.data) == wait.rest
    {
      var id := nextId;
      nextId := nextId + 1;
      SendRequest(id, name, params);
      outcome := WaitFor(id);
    }

    /** The loop of `request`. */
    method WaitFor(id: nat) returns (outcome: Outcome)
      requires Valid()
      modifies stdout, this`stdin, this`sent
      ensures Valid()
      ensures var wait := Await(Items(codec, old(stdout.data)), id);
              && outcome == wait.outcome
              && sent == old(sent) + wait.replies
              && Items(codec, stdout.data) == wait.rest
    {
      ghost var items, before := Items(codec, stdout.data), sent;
      ghost var now := items;
      var item: Item;
      while true
        invariant Valid()
        invariant now == Items(codec, stdout.data) && OnTheWay(items, id, before, sent, now)
        decreases |now|
      {
        item := ReadItem();
        if item.Fault? || Answers(item.msg, id) {
          break;
        }
        StepOn(items, id, before, sent, now);
        now := now[1..];
        Reply(item.msg);
      }
      Arrive(items, id, before, sent, now);
      outcome := if item.Fault? then item.outcome else Answer(item.msg);
    }

    method SendRequest(id: nat, name: string, params: Json)
      requires stdin == Encode(codec, sent)
      requires id > 0 && nextId == id + 1 && RequestIds(sent) == OneTo(id - 1)
      modifies this`stdin, this`sent
      ensures Valid() && sent == old(sent) + [RequestMessage(id, name, params)]
    {
      var request := RequestMessage(id, name, params);
      RequestIdsAppend(sent, [request]);
      assert [request][1..] == [];
      Send(request);
    }

    /** One message: read, decoded and known to be an object; or the exception raised instead. */
    method ReadItem() returns (item: Item)
      modifies stdout
      ensures var items := Items(codec, old(stdout.data));
              && item == (if items == [] then Fault(Broken(Closed)) else items[0])
              && Items(codec, stdout.data) == (if items == [] then [] else items[1..])
    {
      ReadShrinks(stdout.data);
      var frame := Read();
      if frame.Failed? {
        return Fault(Broken(frame.error));
      }
      var loaded := codec.loads(frame.body);
      if loaded == None {
        return Fault(NotJson);
      }
      if !loaded.value.Obj? {
        return Fault(NotAnObject);
      }
      item := Message(loaded.value);
    }

    method Reply(msg: Json)
      requires Valid()
      modifies this`stdin, this`sent
      ensures Valid() && sent == old(sent) + Replies([msg])
    {
      assert [msg][1..] == [];
      if AsksClient(msg) {
        var reply := NullReply(msg.fields["id"]);
        RequestIdsAppend(sent, [reply]);
        assert [reply][1..] == [];
        Send(reply);
      }
    }

    method Notify(name: string, params: Json)
      requires Valid()
      modifies this`stdin, this`sent
      ensures Valid() && sent == old(sent) + [Notification(name, params)]
    {
      RequestIdsAppend(sent, [Notification(name, params)]);
      assert [Notification(name, params)][1..] == [];
      Send(Notification(name, params));
    }
  }

  // ---------------------------------------------------------------- what a request sees of a stream of messages

  /** Index of the first message that answers `id`; the length of the list if there is none. */
  function FirstAnswer(messages: seq<Json>, id: nat): (k: nat)
    ensures k <= |messages|
    ensures forall i :: 0 <= i < k ==> !Answers(messages[i], id)
    ensures k < |messages| ==> Answers(messages[k], id)
  {
    if messages == [] || Answers(messages[0], id) then 0 else 1 + FirstAnswer(messages[1..], id)
  }

  lemma {:induction false} RepliesAppend(a: seq<Json>, b: seq<Json>)
    ensures Replies(a + b) == Replies(a) + Replies(b)
  {
    if a == [] {
      assert a + b == b;
    } else {
      assert (a + b)[1..] == a[1..] + b;
      RepliesAppend(a[1..], b);
    }
  }

  function Messages(messages: seq<Json>): (items: seq<Item>)
    ensures |items| == |messages| && forall i :: 0 <= i < |items| ==> items[i] == Message(messages[i])
  {
    seq(|messages|, i requires 0 <= i < |messages| => Message(messages[i]))
  }

  /** Messages a server writes are the items the client reads. */
  lemma ItemsWritten(codec: Codec, messages: seq<Json>)
    requires Lawful(codec) && forall i :: 0 <= i < |messages| ==> messages[i].Obj?
    ensures Items(codec, Encode(codec, messages)) == Messages(messages)
  {
    ItemsBehind(codec, messages, []);
    assert Encode(codec, messages) + [] == Encode(codec, messages);
    assert Messages(messages) + [] == Messages(messages);
  }

  /** They are read whatever follows them. */
  lemma {:induction false} ItemsBehind(codec: Codec, messages: seq<Json>, tail: string)
    requires Lawful(codec) && forall i :: 0 <= i < |messages| ==> messages[i].Obj?
    ensures Items(codec, Encode(codec, messages) + tail) == Messages(messages) + Items(codec, tail)
  {
    if messages == [] {
      assert Encode(codec, messages) + tail == tail;
    } else {
      var first, rest := messages[0], Encode(codec, messages[1..]) + tail;
      assert Encode(codec, messages) + tail == WriteFrame(codec.dumps(first)) + rest;
      ItemFirst(codec, first, rest);
      ItemsBehind(codec, messages[1..], tail);
      MessagesFirst(messages, Items(codec, tail));
    }
  }

  lemma ItemFirst(codec: Codec, first: Json, rest: string)
    requires Lawful(codec) && first.Obj?
    ensures Items(codec, WriteFrame(codec.dumps(first)) + rest) == [Message(first)] + Items(codec, rest)
  {
    ReadWrittenFrame(codec.dumps(first), rest);
    assert Load(codec, Body(codec.dumps(first), rest)) == Message(first);
  }

  lemma MessagesFirst(messages: seq<Json>, rest: seq<Item>)
    requires messages != []
    ensures Messages(messages) + rest == [Message(messages[0])] + (Messages(messages[1..]) + rest)
  {
  }

  /** Messages that do not answer are passed over, each with the reply it is owed. */
  lemma {:induction false} AwaitPast(before: seq<Json>, rest: seq<Item>, id: nat)
    requires forall i :: 0 <= i < |before| ==> !Answers(before[i], id)
    ensures Await(Messages(before) + rest, id) == Await(rest, id).Prefixed(Replies(before))
    decreases |before|
  {
    if before == [] {
      assert Messages(before) + rest == rest;
      assert [] + Await(rest, id).replies == Await(rest, id).replies;
    } else {
      var first, tail := before[0], before[1..];
      assert Messages(before) + rest == [Message(first)] + (Messages(tail) + rest);
      AwaitPast(tail, rest, id);
      PrefixedTwice(Await(rest, id), Replies([first]), Replies(tail));
      assert before == [first] + tail;
      RepliesAppend([first], tail);
    }
  }

  lemma AwaitTurn(before: seq<Json>, answer: Json, later: seq<Json>, id: nat)
    requires Answers(answer, id) && forall i :: 0 <= i < |before| ==> !Answers(before[i], id)
    ensures Await(Messages(before + [answer] + later), id) == Wait(Answer(answer), Replies(before), Messages(later))
  {
    var rest := [Message(answer)] + Messages(later);
    assert Messages(before + [answer] + later) == Messages(before) + rest;
    AwaitPast(before, rest, id);
    assert rest[1..] == Messages(later);
    assert Replies(before) + [] == Replies(before);
  }

  /** Against any stream of messages the first one with the request's own id and a result or an error decides:
      its error is raised, or else its result returned; every server request before it got one null reply,
      in order; nothing behind it was read. Without such a message the stream ends in an error. */
  lemma AwaitMessages(codec: Codec, messages: seq<Json>, id: nat)
    requires Lawful(codec) && forall i :: 0 <= i < |messages| ==> messages[i].Obj?
    ensures var k, wait := FirstAnswer(messages, id), Await(Items(codec, Encode(codec, messages)), id);
            if k == |messages| then wait == Wait(Broken(Closed), Replies(messages), []) else
              && wait.replies == Replies(messages[..k])
              && wait.rest == Items(codec, Encode(codec, messages[k + 1..]))
              && ("error" in messages[k].fields ==> wait.outcome == Raised(messages[k].fields["error"]))
              && ("error" !in messages[k].fields ==> wait.outcome == Returned(messages[k].fields["result"]))
  {
    var k := FirstAnswer(messages, id);
    ItemsWritten(codec, messages);
    if k < |messages| {
      ItemsWritten(codec, messages[k + 1..]);
    }
    AwaitFirst(messages, id);
  }

  /** A frame that cannot be read, is no JSON or holds no object ends the request in that error, with the
      replies owed until then sent. */
  lemma AwaitBroken(codec: Codec, messages: seq<Json>, bad: string, id: nat)
    requires Lawful(codec) && bad != []
    requires forall i :: 0 <= i < |messages| ==> messages[i].Obj? && !Answers(messages[i], id)
    ensures var frame, wait := ReadFrame(bad), Await(Items(codec, Encode(codec, messages) + bad), id);
            && (frame.Failed? ==> wait == Wait(Broken(frame.error), Replies(messages), Items(codec, frame.rest)))
            && (frame.Body? && codec.loads(frame.body) == None ==>
                  wait == Wait(NotJson, Replies(messages), Items(codec, frame.rest)))
            && (frame.Body? && codec.loads(frame.body).Some? && !codec.loads(frame.body).value.Obj? ==>
                  wait == Wait(NotAnObject, Replies(messages), Items(codec, frame.rest)))
  {
    ItemsBehind(codec, messages, bad);
    AwaitPast(messages, Items(codec, bad), id);
    assert Replies(messages) + [] == Replies(messages);
  }

  /** The server's requests, messages with an id and a method, are owed one reply each: their id with a null
      result. Nothing else is owed one. */
  lemma {:induction false} RepliesOwed(messages: seq<Json>) returns (at: seq<nat>)
    ensures Increasing(at) && |Replies(messages)| == |at|
    ensures forall i: nat :: i in at <==>
              && i < |messages| && messages[i].Obj?
              && "id" in messages[i].fields && "method" in messages[i].fields
    ensures forall j :: 0 <= j < |at| ==>
              && at[j] in at
              && Replies(messages)[j] ==
                 Obj(map["jsonrpc" := Str("2.0"), "id" := messages[at[j]].fields["id"], "result" := Null])
  {
    if messages == [] {
      at := [];
    } else {
      var n := |messages| - 1;
      var before, last := messages[..n], messages[n];
      at := RepliesOwed(before);
      assert messages == before + [last];
      RepliesAppend(before, [last]);
      assert [last][1..] == [];
      if AsksClient(last) {
        at := at + [n];
      }
    }
  }

  /** What a server reads of a request, of a notification and of a reply: these fields and no others. */
  lemma SentSeen(codec: Codec, id: nat, name: string, params: Json, asked: Json)
    requires Lawful(codec)
    ensures var sent := [RequestMessage(id, name, params), Notification(name, params), NullReply(asked)];
            Items(codec, Encode(codec, sent)) ==
            [Message(Obj(map["jsonrpc" := Str("2.0"), "id" := Num(id), "method" := Str(name), "params" := params])),
             Message(Obj(map["jsonrpc" := Str("2.0"), "method" := Str(name), "params" := params])),
             Message(Obj(map["jsonrpc" := Str("2.0"), "id" := asked, "result" := Null]))]
  {
    ItemsWritten(codec, [RequestMessage(id, name, params), Notification(name, params), NullReply(asked)]);
  }

  lemma AwaitFirst(messages: seq<Json>, id: nat)
    ensures var k := FirstAnswer(messages, id);
            Await(Messages(messages), id) ==
            if k == |messages| then Wait(Broken(Closed), Replies(messages), [])
            else Wait(Answer(messages[k]), Replies(messages[..k]), Messages(messages[k + 1..]))
  {
    var k := FirstAnswer(messages, id);
    if k == |messages| {
      AwaitPast(messages, [], id);
      assert Messages(messages) + [] == Messages(messages);
      assert Replies(messages) + [] == Replies(messages);
    } else {
      AwaitTurn(messages[..k], messages[k], messages[k + 1..], id);
      assert messages == messages[..k] + [messages[k]] + messages[k + 1..];
    }
  }

  // ---------------------------------------------------------------- a client's whole life

  datatype Call = Call(name: string, params: Json)

  datatype Life = Life(outcomes: seq<Outcome>, sent: seq<Json>, rest: seq<Item>)

  /** Requests made one after the other. */
  function Run(calls: seq<Call>, items: seq<Item>, id: nat): Life
    decreases |calls|
  {
    if calls == [] then Life([], [], items) else
      var wait := Await(items, id);
      var later := Run(calls[1..], wait.rest, id + 1);
      Life([wait.outcome] + later.outcomes,
           [RequestMessage(id, calls[0].name, calls[0].params)] + wait.replies + later.sent,
           later.rest)
  }

  /** From `before` on the wire and `items` to read, calls led to these outcomes, to `sent` on the wire and
      to `rest` to read. */
  ghost predicate Lived(calls: seq<Call>, items: seq<Item>, id: nat, before: seq<Json>, outcomes: seq<Outcome>,
                        sent: seq<Json>, rest: seq<Item>) {
    var life := Run(calls, items, id);
    outcomes == life.outcomes && sent == before + life.sent && rest == life.rest
  }

  lemma LivedFirst(calls: seq<Call>, items: seq<Item>, id: nat, before: seq<Json>, later: seq<Outcome>,
                   sent: seq<Json>, rest: seq<Item>)
    requires calls != []
    requires var wait := Await(items, id);
             var said := before + [RequestMessage(id, calls[0].name, calls[0].params)] + wait.replies;
             Lived(calls[1..], wait.rest, id + 1, said, later, sent, rest)
    ensures Lived(calls, items, id, before, [Await(items, id).outcome] + later, sent, rest)
  {
    var wait, request := Await(items, id), [RequestMessage(id, calls[0].name, calls[0].params)];
    SayingOn(before, request, wait.replies, Run(calls[1..], wait.rest, id + 1).sent);
  }

  lemma SayingOn(before: seq<Json>, request: seq<Json>, replies: seq<Json>, later: seq<Json>)
    ensures before + request + replies + later == before + (request + replies + later)
  {
  }

  /** Making calls on a client, one after the other, is `Run`. */
  method MakeCalls(client: Client, calls: seq<Call>) returns (outcomes: seq<Outcome>)
    requires client.Valid()
    modifies client, client.stdout
    ensures client.Valid() && client.nextId == old(client.nextId) + |calls|
    ensures Lived(calls, Items(client.codec, old(client.stdout.data)), old(client.nextId), old(client.sent),
                  outcomes, client.sent, Items(client.codec, client.stdout.data))
    decreases |calls|
  {
    if calls == [] {
      outcomes := [];
    } else {
      ghost var items, id, before := Items(client.codec, client.stdout.data), client.nextId, client.sent;
      var outcome := client.Request(calls[0].name, calls[0].params);
      var later := MakeCalls(client, calls[1..]);
      LivedFirst(calls, items, id, before, later, client.sent, Items(client.codec, client.stdout.data));
      outcomes := [outcome] + later;
    }
  }

  /** What the server says up to and including its answer to one request. */
  datatype Turn = Turn(before: seq<Json>, answer: Json)

  predicate TurnFor(turn: Turn, id: nat) {
    && Answers(turn.answer, id)
    && forall i :: 0 <= i < |turn.before| ==> turn.before[i].Obj? && !Answers(turn.before[i], id)
  }

  /** The answer's error is raised; its result is returned if it has no error. */
  predicate TakenFrom(outcome: Outcome, answer: Json) {
    && answer.Obj?
    && ("error" in answer.fields ==> outcome == Raised(answer.fields["error"]))
    && ("error" !in answer.fields ==> "result" in answer.fields && outcome == Returned(answer.fields["result"]))
  }

  function Script(turns: seq<Turn>): seq<Json> {
    if turns == [] then [] else turns[0].before + [turns[0].answer] + Script(turns[1..])
  }

  /** What the client says in such a dialogue. */
  function ClientSide(calls: seq<Call>, turns: seq<Turn>, id: nat): seq<Json>
    requires |calls| == |turns|
  {
    if calls == [] then [] else
      [RequestMessage(id, calls[0].name, calls[0].params)] + Replies(turns[0].before)
      + ClientSide(calls[1..], turns[1..], id + 1)
  }

  /** If the server answers every request after any chatter that does not answer it, then every call gets its
      own answer's error raised or its result returned, and the whole dialogue is the alternation of requests
      and replies. */
  lemma {:induction false} RunScript(calls: seq<Call>, turns: seq<Turn>, id: nat)
    requires |calls| == |turns| && forall i :: 0 <= i < |turns| ==> TurnFor(turns[i], id + i)
    ensures var life := Run(calls, Messages(Script(turns)), id);
            && life.sent == ClientSide(calls, turns, id) && life.rest == [] && |life.outcomes| == |turns|
            && forall i :: 0 <= i < |turns| ==> TakenFrom(life.outcomes[i], turns[i].answer)
  {
    if calls != [] {
      var turn, later := turns[0], Script(turns[1..]);
      assert TurnFor(turn, id + 0);
      AwaitTurn(turn.before, turn.answer, later, id);
      forall i | 0 <= i < |turns[1..]|
        ensures TurnFor(turns[1..][i], id + 1 + i)
      {
        assert TurnFor(turns[i + 1], id + (i + 1));
      }
      RunScript(calls[1..], turns[1..], id + 1);
    }
  }
}
