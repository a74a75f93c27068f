/** DNS over TCP: messages behind a two-octet length (section 4.2.2 of RFC 1035). */
module Framing {
  import opened Bytes
  import opened Net
  import opened DnsMessage
  import opened DnsRecords

  /** What is written for a message; the length is cast to 16 bits. */
  function Frame(message: seq<Byte>): (r: seq<Byte>)
    ensures |r| == 2 + |message|
  {
    Be16(|message| % 0x1_0000) + message
  }

  /** How a stream goes on after the bytes that arrive. */
  datatype Ending = Eof | Failed

  datatype Read = Message(message: seq<Byte>, rest: seq<Byte>) | End | Broken

  /** `read_tcp_message`: one message; a stream that ends inside the length prefix
      ends cleanly, one that ends inside the message does not. */
  function ReadMessage(stream: seq<Byte>, ending: Ending): Read {
    match ReadBe16(stream, 0)
    case None => if ending.Eof? then End else Broken
    case Some(len) =>
      if 2 + len <= |stream| then Message(stream[2..2 + len], stream[2 + len..]) else Broken
  }

  /** Everything a reader of the stream sees. */
  datatype Transcript = Transcript(messages: seq<seq<Byte>>, clean: bool)

  function ReadAll(stream: seq<Byte>, ending: Ending): Transcript
    decreases |stream|
  {
    match ReadMessage(stream, ending)
    case End => Transcript([], true)
    case Broken => Transcript([], false)
    case Message(m, rest) =>
      var t := ReadAll(rest, ending);
      Transcript([m] + t.messages, t.clean)
  }

  function FrameAll(messages: seq<seq<Byte>>): seq<Byte> {
    if messages == [] then [] else Frame(messages[0]) + FrameAll(messages[1..])
  }

  predicate Framable(messages: seq<seq<Byte>>) {
    messages == [] || (|messages[0]| < 0x1_0000 && Framable(messages[1..]))
  }

  /** A frame in front of anything is read as the message cut to its 16-bit length. */
  lemma ReadFrame(m: seq<Byte>, more: seq<Byte>, ending: Ending)
    ensures var len := |m| % 0x1_0000;
      ReadMessage(Frame(m) + more, ending) == Message(m[..len], m[len..] + more)
  {
  }

  /** Framing round-trips exactly when every message fits its 16-bit length. */
  lemma {:induction false} FramesRoundTrip(messages: seq<seq<Byte>>)
    ensures ReadAll(FrameAll(messages), Eof) == Transcript(messages, true) <==> Framable(messages)
  {
    hide Frame, ReadMessage;
    if messages == [] {
      ReadNothing();
    } else {
      var m, more := messages[0], FrameAll(messages[1..]);
      ReadFrame(m, more, Eof);
      if |m| < 0x1_0000 {
        assert m[..|m|] == m && m[|m|..] + more == more;
        FramesRoundTrip(messages[1..]);
        assert messages == [m] + messages[1..];
      } else {
        assert ReadAll(FrameAll(messages), Eof).messages[0] == m[..|m| % 0x1_0000] != m;
      }
    }
  }

  lemma ReadNothing()
    ensures ReadMessage([], Eof) == End
  {
  }

  /** The per-connection loop of `serve_tcp_connection`: replies are framed in the
      order of the messages, until the stream ends or breaks. A reply depends on the
      message and on its turn, since the world may have changed in between. */
  method ServeConnection(stream: seq<Byte>, ending: Ending, respond: (nat, seq<Byte>) -> seq<Byte>)
    returns (written: seq<Byte>)
    ensures written == FrameAll(Replies(ReadAll(stream, ending).messages, respond))
  {
    hide Frame, ReadMessage, ReadAll, FrameAll, Replies;
    written := [];
    var rest := stream;
    var turn := 0;
    ghost var done: seq<seq<Byte>> := [];
    NoReplies(respond);
    while true
      invariant turn == |done|
      invariant ReadAll(stream, ending).messages == done + ReadAll(rest, ending).messages
      invariant written == FrameAll(Replies(done, respond))
      decreases |rest|
    {
      ReadAllStep(rest, ending);
      assert done + [] == done;
      match ReadMessage(rest, ending) {
        case End => return;
        case Broken => return;
        case Message(m, more) =>
          var reply := respond(turn, m);
          written := written + Frame(reply);
          RepliesSnoc(done, m, respond);
          FrameAllSnoc(Replies(done, respond), reply);
          done, turn := done + [m], turn + 1;
          rest := more;
      }
    }
  }

  lemma NoReplies(respond: (nat, seq<Byte>) -> seq<Byte>)
    ensures FrameAll(Replies([], respond)) == []
  {
  }

  lemma ReadAllStep(stream: seq<Byte>, ending: Ending)
    ensures var r, all := ReadMessage(stream, ending), ReadAll(stream, ending).messages;
      if r.Message? then |r.rest| < |stream| && all == [r.message] + ReadAll(r.rest, ending).messages
      else all == []
  {
  }

  function Replies(messages: seq<seq<Byte>>, respond: (nat, seq<Byte>) -> seq<Byte>): (r: seq<seq<Byte>>)
    ensures |r| == |messages| && forall i :: 0 <= i < |r| ==> r[i] == respond(i, messages[i])
  {
    seq(|messages|, i requires 0 <= i < |messages| => respond(i, messages[i]))
  }

  lemma RepliesSnoc(messages: seq<seq<Byte>>, m: seq<Byte>, respond: (nat, seq<Byte>) -> seq<Byte>)
    ensures Replies(messages + [m], respond) == Replies(messages, respond) + [respond(|messages|, m)]
  {
  }

  lemma {:induction false} FrameAllSnoc(messages: seq<seq<Byte>>, m: seq<Byte>)
    ensures FrameAll(messages + [m]) == FrameAll(messages) + Frame(m)
  {
    hide Frame;
    if messages == [] {
      assert [m][1..] == [];
    } else {
      FrameAllSnoc(messages[1..], m);
      assert (messages + [m])[1..] == messages[1..] + [m];
    }
  }

  /** A client that frames its queries reads back one reply per query, in order, and
      then the end, exactly when every reply fits its length prefix. */
  lemma ConversationRoundTrip(queries: seq<seq<Byte>>, respond: (nat, seq<Byte>) -> seq<Byte>)
    requires Framable(queries)
    ensures var written := FrameAll(Replies(ReadAll(FrameAll(queries), Eof).messages, respond));
      ReadAll(written, Eof) == Transcript(Replies(queries, respond), true)
      <==> Framable(Replies(queries, respond))
  {
    hide FrameAll, ReadAll, Framable, Replies;
    FramesRoundTrip(queries);
    FramesRoundTrip(Replies(queries, respond));
  }

  lemma {:induction false} FramableIff(messages: seq<seq<Byte>>)
    ensures Framable(messages) <==> forall i :: 0 <= i < |messages| ==> |messages[i]| < 0x1_0000
  {
    if messages != [] {
      FramableIff(messages[1..]);
      assert forall i :: 1 <= i < |messages| ==> messages[i] == messages[1..][i - 1];
    }
  }

  lemma OneFrame(m: seq<Byte>)
    requires |m| < 0x1_0000
    ensures ReadAll(Frame(m), Eof) == Transcript([m], true)
  {
    hide Frame, ReadAll;
    FramesRoundTrip([m]);
    FrameAllSnoc([], m);
    assert [] + [m] == [m] && [] + Frame(m) == Frame(m);
  }

  /** How many records a local answer may carry and still fit, whatever the query. */
  lemma LocalAnswerFits(q: Query, addrs: seq<Ip>)
    requires Accepted(q)
    requires |Matching(addrs, q.question.qtype)| <= if q.question.qtype == TYPE_AAAA then 2330 else 4078
    ensures |Answer(q, addrs)| < 0x1_0000
    ensures ReadAll(Frame(Answer(q, addrs)), Eof) == Transcript([Answer(q, addrs)], true)
  {
    hide Answer, Parse, Frame, ReadAll;
    AcceptedEnds(q);
    AnswerDecodes(q, addrs);
    OneFrame(Answer(q, addrs));
  }

  lemma AcceptedEnds(q: Query)
    requires Accepted(q)
    ensures q.question.end <= 272
  {
    AcceptedDecomposes(q.raw);
  }
}
