/**
 * The daemon's message stream (packages/encryption-binary-rust/src/ipc.rs): each message is its length
 * as four little-endian bytes and then its JSON bytes.
 *
 * Parsing JSON and answering a message are functions of its bytes. `incoming` is what arrives before
 * the connection closes or fails; the server keeps running and the client accepts every reply.
 */
module Framing {
  import opened Bytes
  import opened Outcomes
  import opened Sequences

  const MAX_MESSAGE_SIZE: nat := 10_000_000

  /** `send_response`: the length is cast to 32 bits. */
  function Frame(body: seq<byte>): seq<byte> {
    LittleEndian(|body| % U32) + body
  }

  function Frames(bodies: seq<seq<byte>>): seq<byte> {
    if bodies == [] then [] else Frame(bodies[0]) + Frames(bodies[1..])
  }

  predicate LegalLength(n: nat) {
    1 <= n <= MAX_MESSAGE_SIZE
  }

  predicate Legal(bodies: seq<seq<byte>>) {
    forall body | body in bodies :: LegalLength(|body|)
  }

  /** The stream begins with a whole frame of legal length. */
  predicate HasFrame(s: seq<byte>) {
    |s| >= 4 && LegalLength(FromLittleEndian(s[..4])) && |s| >= 4 + FromLittleEndian(s[..4])
  }

  /** The messages the server reads before it gives up on the stream. */
  function Messages(s: seq<byte>): seq<seq<byte>>
    decreases |s|
  {
    if !HasFrame(s) then []
    else
      var n := FromLittleEndian(s[..4]);
      [s[4..4 + n]] + Messages(s[4 + n..])
  }

  // ----- the wire format

  lemma Cuts<T>(a: seq<T>, b: seq<T>, c: seq<T>, s: seq<T>)
    requires s == a + b + c
    ensures s[..|a|] == a && s[|a|..|a| + |b|] == b && s[|a| + |b|..] == c
  {
  }

  /** One unfolding of `Messages`, on a stream cut into header, body and rest. */
  lemma FirstOfFrame(header: seq<byte>, body: seq<byte>, rest: seq<byte>, s: seq<byte>)
    requires s == header + body + rest && |header| == 4
    requires FromLittleEndian(header) == |body| && LegalLength(|body|)
    ensures Messages(s) == [body] + Messages(rest)
  {
    Cuts(header, body, rest, s);
  }

  lemma FrameIsRead(body: seq<byte>, rest: seq<byte>)
    requires LegalLength(|body|)
    ensures Messages(Frame(body) + rest) == [body] + Messages(rest)
  {
    LittleEndianRoundTrip(|body|);
    FirstOfFrame(LittleEndian(|body|), body, rest, Frame(body) + rest);
  }

  /** Any list of messages of legal length is read back as exactly that list, whatever follows it on the stream. */
  lemma {:induction false} FramesRoundTrip(bodies: seq<seq<byte>>, rest: seq<byte>)
    requires Legal(bodies)
    ensures Messages(Frames(bodies) + rest) == bodies + Messages(rest)
  {
    if bodies == [] {
      assert Frames(bodies) + rest == rest;
    } else {
      var body, others := bodies[0], bodies[1..];
      assert body in bodies;
      FramesRoundTrip(others, rest);
      FrameIsRead(body, Frames(others) + rest);
      Associate(Frame(body), Frames(others), rest);
      Associate([body], others, Messages(rest));
      assert bodies == [body] + others;
    }
  }

  /** A single message comes back exactly when its length is legal. */
  lemma FrameRoundTrip(body: seq<byte>)
    ensures Messages(Frame(body)) == [body] <==> 1 <= |body| <= 10_000_000
  {
    var n := |body| % U32;
    LittleEndianRoundTrip(n);
    assert Frame(body)[..4] == LittleEndian(n);
    if LegalLength(|body|) {
      FrameIsRead(body, []);
      assert Frame(body) + [] == Frame(body);
    } else {
      assert HasFrame(Frame(body)) ==> |Messages(Frame(body))[0]| == n != |body|;
    }
  }

  lemma CutAt<T>(s: seq<T>, i: nat, j: nat)
    requires i <= j <= |s|
    ensures s == s[..i] + s[i..j] + s[j..]
  {
  }

  lemma FrameOf(header: seq<byte>, body: seq<byte>)
    requires |header| == 4 && FromLittleEndian(header) == |body|
    ensures Frame(body) == header + body
  {
    FromLittleEndianRoundTrip(header);
  }

  lemma FirstFrame(s: seq<byte>) returns (body: seq<byte>, rest: seq<byte>)
    requires HasFrame(s)
    ensures LegalLength(|body|) && s == Frame(body) + rest && Messages(s) == [body] + Messages(rest)
    ensures |rest| < |s|
  {
    var header := s[..4];
    var n := FromLittleEndian(header);
    body, rest := s[4..4 + n], s[4 + n..];
    assert s == header + body + rest by { CutAt(s, 4, 4 + n); }
    assert Frame(body) == header + body by { FrameOf(header, body); }
  }

  lemma PrefixUnder(a: seq<byte>, b: seq<byte>, c: seq<byte>)
    requires b <= c
    ensures a + b <= a + c && (a + c)[|a + b|..] == c[|b|..]
  {
  }

  /**
   * Whatever the stream, what is read was framed on it: legal messages, then something that is not a whole legal
   * frame.
   */
  lemma {:induction false} ReadWasFramed(s: seq<byte>)
    ensures Legal(Messages(s))
    ensures Frames(Messages(s)) <= s && !HasFrame(s[|Frames(Messages(s))|..])
    decreases |s|
  {
    if HasFrame(s) {
      var body, rest := FirstFrame(s);
      ReadWasFramed(rest);
      var bodies := Messages(rest);
      assert ([body] + bodies)[1..] == bodies;
      PrefixUnder(Frame(body), Frames(bodies), rest);
    } else {
      assert s[0..] == s;
    }
  }

  // ----- the server

  /** What the server answers to one message. */
  function Answer(valid: seq<byte> -> bool, handle: seq<byte> -> seq<byte>, invalidJson: seq<byte>,
                  body: seq<byte>): seq<byte> {
    if valid(body) then handle(body) else invalidJson
  }

  function Answers(valid: seq<byte> -> bool, handle: seq<byte> -> seq<byte>, invalidJson: seq<byte>,
                   bodies: seq<seq<byte>>)
    : (answers: seq<seq<byte>>)
    ensures |answers| == |bodies|
    ensures forall i | 0 <= i < |bodies| :: answers[i] == Answer(valid, handle, invalidJson, bodies[i])
  {
    seq(|bodies|, i requires 0 <= i < |bodies| => Answer(valid, handle, invalidJson, bodies[i]))
  }

  class Connection {
    var incoming: seq<byte>
    var outgoing: seq<byte>

    constructor (incoming: seq<byte>)
      ensures this.incoming == incoming && outgoing == []
    {
      this.incoming := incoming;
      outgoing := [];
    }

    /** One read call: some of the bytes that are there, at least one unless the stream is over. */
    method ReadSome(buf: array<byte>, from: nat) returns (n: nat)
      requires from < buf.Length
      modifies this`incoming, buf
      ensures n <= buf.Length - from && n <= |old(incoming)|
      ensures n == 0 <==> old(incoming) == []
      ensures incoming == old(incoming)[n..]
      ensures buf[..] == old(buf[..from]) + old(incoming)[..n] + old(buf[from + n..])
    {
      if incoming == [] {
        n := 0;
      } else {
        n :| 1 <= n <= |incoming| && n <= buf.Length - from;
        forall i | 0 <= i < n {
          buf[from + i] := incoming[i];
        }
        incoming := incoming[n..];
      }
    }

    /** The body-read loop: fills the buffer however the bytes arrive in chunks, or finds the stream over. */
    method ReadExact(buf: array<byte>) returns (ok: bool)
      modifies this`incoming, buf
      ensures ok <==> |old(incoming)| >= buf.Length
      ensures ok ==> buf[..] == old(incoming)[..buf.Length] && incoming == old(incoming)[buf.Length..]
    {
      var total := 0;
      ghost var was := incoming;
      while total < buf.Length
        invariant total <= buf.Length && total <= |was|
        invariant buf[..total] == was[..total]
        invariant incoming == was[total..]
      {
        var chunk := ReadSome(buf, total);
        if chunk == 0 {
          return false;
        }
        assert buf[..total + chunk] == was[..total] + was[total..][..chunk];
        total := total + chunk;
      }
      assert buf[..total] == buf[..];
      return true;
    }

    method SendResponse(json: seq<byte>)
      modifies this`outgoing
      ensures outgoing == old(outgoing) + Frame(json)
    {
      Associate(outgoing, LittleEndian(|json| % U32), json);
      outgoing := outgoing + LittleEndian(|json| % U32);
      outgoing := outgoing + json;
    }

    /** Reads the next message, or finds that the stream holds no further whole legal frame. */
    method ReadMessage() returns (message: Option<seq<byte>>)
      modifies this`incoming
      ensures message.Some? <==> HasFrame(old(incoming))
      ensures message.Some? ==> Messages(old(incoming)) == [message.value] + Messages(incoming)
      ensures message.Some? ==> |incoming| < |old(incoming)|
    {
      ghost var s := incoming;
      var lenBuf := new byte[4];
      var ok := ReadExact(lenBuf);
      if !ok {
        return None;
      }
      var msgLen := FromLittleEndian(lenBuf[..]);
      if msgLen == 0 || msgLen > MAX_MESSAGE_SIZE {
        return None;
      }
      var msgBuf := new byte[msgLen];
      ok := ReadExact(msgBuf);
      if !ok {
        return None;
      }
      assert s[4..][..msgLen] == s[4..4 + msgLen] && s[4..][msgLen..] == s[4 + msgLen..];
      return Some(msgBuf[..]);
    }

    /**
     * Serves the connection to its end: one framed answer to each message, in order. A message that is
     * not JSON gets the error answer and the stream goes on in step.
     */
    method HandleClient(valid: seq<byte> -> bool, handle: seq<byte> -> seq<byte>, invalidJson: seq<byte>)
      modifies this
      ensures outgoing == old(outgoing) + Frames(Answers(valid, handle, invalidJson, Messages(old(incoming))))
    {
      ghost var sent := outgoing;
      ghost var all := Messages(incoming);
      ghost var done: seq<seq<byte>> := [];
      while true
        invariant done + Messages(incoming) == all
        invariant outgoing == sent + Frames(Answers(valid, handle, invalidJson, done))
        decreases |incoming|
      {
        var message := ReadMessage();
        if message.None? {
          assert done == all;
          break;
        }
        AnswersAppend(valid, handle, invalidJson, done, message.value);
        Associate(sent, Frames(Answers(valid, handle, invalidJson, done)),
                  Frame(Answer(valid, handle, invalidJson, message.value)));
        Associate(done, [message.value], Messages(incoming));
        done := done + [message.value];
        if valid(message.value) {
          SendResponse(handle(message.value));
        } else {
          SendResponse(invalidJson);
        }
      }
    }
  }

  lemma {:induction false} FramesAppend(bodies: seq<seq<byte>>, body: seq<byte>)
    ensures Frames(bodies + [body]) == Frames(bodies) + Frame(body)
  {
    var longer := bodies + [body];
    if bodies != [] {
      assert longer[1..] == bodies[1..] + [body];
      FramesAppend(bodies[1..], body);
    } else {
      assert longer == [body] && longer[1..] == [];
    }
  }

  lemma AnswersAppend(valid: seq<byte> -> bool, handle: seq<byte> -> seq<byte>, invalidJson: seq<byte>,
                      bodies: seq<seq<byte>>, body: seq<byte>)
    ensures Frames(Answers(valid, handle, invalidJson, bodies + [body]))
         == Frames(Answers(valid, handle, invalidJson, bodies)) + Frame(Answer(valid, handle, invalidJson, body))
  {
    var answers := Answers(valid, handle, invalidJson, bodies);
    var answer := Answer(valid, handle, invalidJson, body);
    assert Answers(valid, handle, invalidJson, bodies + [body]) == answers + [answer];
    FramesAppend(answers, answer);
  }

  /**
   * Both directions together: for every list of legal messages, valid JSON or not, the client reads back
   * exactly one answer to each, at the same position, when the answers are of legal length.
   */
  lemma EveryMessageIsAnswered(valid: seq<byte> -> bool, handle: seq<byte> -> seq<byte>, invalidJson: seq<byte>,
                               bodies: seq<seq<byte>>)
    requires Legal(bodies) && LegalLength(|invalidJson|)
    requires forall body | body in bodies :: valid(body) ==> LegalLength(|handle(body)|)
    ensures Messages(Frames(Answers(valid, handle, invalidJson, Messages(Frames(bodies)))))
         == Answers(valid, handle, invalidJson, bodies)
  {
    FramesRoundTrip(bodies, []);
    assert Frames(bodies) + [] == Frames(bodies);
    var answers := Answers(valid, handle, invalidJson, bodies);
    assert bodies + Messages([]) == bodies;
    forall answer | answer in answers ensures LegalLength(|answer|) {
      var i :| 0 <= i < |answers| && answers[i] == answer;
      assert bodies[i] in bodies;
    }
    FramesRoundTrip(answers, []);
    assert Frames(answers) + [] == Frames(answers) && answers + Messages([]) == answers;
  }
}
