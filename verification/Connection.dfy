// Connection: the class tcp_connection of core/src/TCP/TCPConnection.cpp.  Its methods are proved
// against the functions that the send queue and the framing receiver are built from.
module Connection {
  import opened Base64
  import opened Framing
  import opened Wrappers
  import Base64Codec
  import Queue = SendQueue

  // How a read ended: the two codes that mean the peer is gone, any other error, or success.
  datatype ReadResult = EndOfFile | ConnectionReset | OtherError | Success

  // The signals a read raises.
  datatype ReadEvent = OnDisconnected | OnReadError | OnReadMessage(message: Bytes)

  class TcpConnection {
    var sendBuffer: seq<Bytes>
    var sendStart: bool
    var partMessage: Bytes
    var reading: bool  // an async_read_until has been started and has not completed

    // The source's constructor does not set `sendStart`: it holds some value.
    constructor (anyFlag: bool)
      ensures sendBuffer == [] && partMessage == [] && sendStart == anyFlag && !reading
    {
      sendBuffer, partMessage, sendStart, reading := [], [], anyFlag, false;
    }

    method Start()
      modifies this
      ensures !sendStart && partMessage == [] && sendBuffer == old(sendBuffer) && reading
    {
      sendStart := false;
      partMessage := [];
      reading := true;
    }

    // send, the first section guarded by `sendSync`.  Only encoding a single byte leaves C++.
    method PushMessage(msg: Bytes) returns (r: Base64.Outcome<()>)
      modifies this`sendBuffer
      ensures r == if |msg| == 1 then Undefined else Returned(())
      ensures sendBuffer == old(sendBuffer) + (if |msg| == 1 then [] else [Frame(msg)])
    {
      hide Encode;
      var text := Base64Codec.EncodeString(msg);
      if text.Undefined? {
        return Undefined;
      }
      if text.Returned? {
        var socketMsg := text.value + [NEWLINE];
        sendBuffer := sendBuffer + [socketMsg];
      }
      return Returned(());
    }

    // async_write: one section guarded by `sendSync`.  Returns the bytes whose write is issued.
    method AsyncWrite(init: bool) returns (issued: Option<Bytes>)
      modifies this`sendBuffer, this`sendStart
      ensures Queue.Written(sendBuffer, sendStart, issued) == Queue.AsyncWrite(old(sendBuffer), old(sendStart), init)
    {
      if init {
        if sendStart {
          return None;
        } else {
          sendStart := true;
        }
      } else {
        if sendBuffer != [] {
          sendBuffer := sendBuffer[1..];
        }
      }
      if sendBuffer == [] {
        sendStart := false;
        return None;
      }
      return Some(sendBuffer[0]);
    }

    // send, run without another thread in between.
    method Send(msg: Bytes) returns (r: Base64.Outcome<Option<Bytes>>)
      modifies this`sendBuffer, this`sendStart
      ensures |msg| == 1 ==> r == Undefined
      ensures |msg| != 1 ==>
                && r.Returned?
                && Queue.Written(sendBuffer, sendStart, r.value)
                   == Queue.AsyncWrite(old(sendBuffer) + [Frame(msg)], old(sendStart), true)
    {
      var pushed := PushMessage(msg);
      if pushed.Undefined? {
        return Undefined;
      }
      var issued := AsyncWrite(true);
      return Returned(issued);
    }

    // handle_write: an error raises onSendError, and the queue moves on in either case.
    method HandleWrite(error: bool) returns (sendError: bool, issued: Option<Bytes>)
      modifies this`sendBuffer, this`sendStart
      ensures sendError == error
      ensures Queue.Written(sendBuffer, sendStart, issued) == Queue.AsyncWrite(old(sendBuffer), old(sendStart), false)
    {
      sendError := error;
      issued := AsyncWrite(false);
    }

    // handle_read, when the outstanding read has completed.  Returns the signals raised, in order;
    // another read is started only after a successful one.
    method HandleRead(result: ReadResult, chunk: Bytes) returns (r: Base64.Outcome<seq<ReadEvent>>)
      modifies this`partMessage, this`reading
      ensures result.Success? && Decodable(old(partMessage) + chunk) ==>
                var received := ReadStep(old(partMessage), chunk);
                && partMessage == received.part && reading
                && r.Returned? && |r.value| == |received.messages|
                && forall i | 0 <= i < |r.value| :: r.value[i] == OnReadMessage(received.messages[i])
      ensures result.Success? && !Decodable(old(partMessage) + chunk) ==> r == Undefined
      ensures !result.Success? ==>
                && partMessage == old(partMessage) && !reading
                && r == Returned(if result.OtherError? then [OnReadError] else [OnDisconnected])
    {
      hide Receive, Decodable;
      reading := false;
      if !result.Success? {
        if result.EndOfFile? || result.ConnectionReset? {
          return Returned([OnDisconnected]);
        }
        return Returned([OnReadError]);
      }
      var events := [];
      var msg := partMessage + chunk;
      partMessage := [];
      EmptyText();
      if msg != [] {
        var messages, unreceived := DecodeMessage(msg, []);
        if messages.Undefined? {
          return Undefined;
        }
        var i := 0;
        while i < |messages.value|
          invariant 0 <= i <= |messages.value|
          invariant |events| == i && forall k | 0 <= k < i :: events[k] == OnReadMessage(messages.value[k])
        {
          events := events + [OnReadMessage(messages.value[i])];
          i := i + 1;
        }
        if msg[|msg| - 1] == NEWLINE {
          CompleteText(msg);
        }
        partMessage := unreceived;
      }
      reading := true;
      return Returned(events);
    }
  }

  // ---------------------------------------------------------------------------------------
  // The methods and the state machine
  // ---------------------------------------------------------------------------------------

  function IssuedBytes(issued: Option<Queue.Node>): Option<Bytes> {
    if issued.None? then None else Some(issued.value.bytes)
  }

  // async_write on the fields is async_write on the nodes of the state machine: it never looks
  // inside a node.
  lemma AsyncWriteOnNodes(nodes: seq<Queue.Node>, started: bool, init: bool)
    ensures var w := Queue.AsyncWrite(nodes, started, init);
            Queue.AsyncWrite(Queue.Contents(nodes), started, init)
            == Queue.Written(Queue.Contents(w.buffer), w.started, IssuedBytes(w.issued))
  {
    if nodes != [] {
      assert Queue.Contents(nodes)[1..] == Queue.Contents(nodes[1..]);
    }
  }
}
