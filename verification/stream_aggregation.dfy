/** Consumption of the server's reply. In streaming mode the body is a series
    of JSON objects; their texts are concatenated up to and including the first
    one marked done. A clean end of the body before that is a normal end that
    keeps the text so far; a decoding failure discards it. Without streaming,
    one object is decoded and its text is the reply.

    The decoder is modelled by the finite list of outcomes its successive calls
    would yield; a list that runs out reads as a clean end of the body. */
module StreamAggregation {
  import opened Types

  /** True for an outcome after which the streaming loop reads no further. */
  predicate Terminal(o: DecodeOutcome) {
    match o
    case Decoded(chunk) => chunk.done
    case EndOfBody => true
    case DecodeFailure => true
  }

  /** The text an outcome contributes to the reply. */
  function ContentOf(o: DecodeOutcome): string {
    if o.Decoded? then o.chunk.message.content else ""
  }

  /** The concatenated texts of a list of outcomes, in order. */
  function Text(outs: seq<DecodeOutcome>): string {
    if |outs| == 0 then "" else Text(outs[..|outs| - 1]) + ContentOf(outs[|outs| - 1])
  }

  /** The position of the first terminal outcome, or the length of the list
      when there is none. */
  function FirstStop(outs: seq<DecodeOutcome>): (k: nat)
    ensures k <= |outs|
    ensures forall j :: 0 <= j < k ==> !Terminal(outs[j])
    ensures k < |outs| ==> Terminal(outs[k])
  {
    if |outs| == 0 then 0
    else if Terminal(outs[0]) then 0
    else 1 + FirstStop(outs[1..])
  }

  /** The reference meaning of the streaming consumption: everything before
      the first terminal outcome is a non-final fragment; the terminal outcome
      decides how the reply ends. */
  function Aggregate(outs: seq<DecodeOutcome>): (r: Result<string>)
    // the only failure is a stream read error, and it happens exactly when a
    // decoding failure comes before any fragment marked done and before the end
    ensures r.Err? ==> r.error == StreamReadError
    ensures r.Err? <==> (exists i :: 0 <= i < |outs| && outs[i].DecodeFailure? && FirstStop(outs) == i)
    // a successful reply is the text of a prefix of the body
    ensures r.Ok? ==> exists n :: 0 <= n <= |outs| && r.value == Text(outs[..n])
  {
    var k := FirstStop(outs);
    if k == |outs| then
      assert outs[..k] == outs;
      Ok(Text(outs))
    else
      match outs[k]
      case DecodeFailure => Err(StreamReadError)
      case EndOfBody => Ok(Text(outs[..k]))
      case Decoded(_) => Ok(Text(outs[..k + 1]))
  }

  /** The position of the first terminal outcome does not depend on what follows it. */
  lemma {:induction false} FirstStopIgnoresRest(outs: seq<DecodeOutcome>, rest: seq<DecodeOutcome>)
    requires FirstStop(outs) < |outs|
    ensures FirstStop(outs + rest) == FirstStop(outs)
  {
    var k := FirstStop(outs);
    forall j | 0 <= j < k
      ensures !Terminal((outs + rest)[j])
    {
      assert (outs + rest)[j] == outs[j];
    }
    assert (outs + rest)[k] == outs[k];
    StopsAt(outs + rest, k);
  }

  /** Outcomes after the first terminal one are never read: appending anything
      after it leaves the reply unchanged. */
  lemma LaterOutcomesNeverRead(outs: seq<DecodeOutcome>, rest: seq<DecodeOutcome>)
    requires FirstStop(outs) < |outs|
    ensures Aggregate(outs + rest) == Aggregate(outs)
  {
    var k := FirstStop(outs);
    FirstStopIgnoresRest(outs, rest);
    assert (outs + rest)[k] == outs[k];
    assert (outs + rest)[..k] == outs[..k];
    assert (outs + rest)[..k + 1] == outs[..k + 1];
  }

  /** A fragment marked done ends the reply: the result is the texts of the
      non-final fragments before it followed by its own text. */
  lemma DoneFragmentEndsReply(prefix: seq<DecodeOutcome>, last: StreamResponse, rest: seq<DecodeOutcome>)
    requires forall i :: 0 <= i < |prefix| ==> !Terminal(prefix[i])
    requires last.done
    ensures Aggregate(prefix + [Decoded(last)] + rest) == Ok(Text(prefix) + last.message.content)
  {
    var outs := prefix + [Decoded(last)];
    StopsAt(outs, |prefix|);
    LaterOutcomesNeverRead(outs, rest);
    assert outs[..|prefix| + 1] == outs;
    assert outs[..|outs| - 1] == prefix;
  }

  /** A clean end of the body before any fragment marked done is a normal end:
      the texts received so far are the reply. */
  lemma EndOfBodyKeepsPartial(prefix: seq<DecodeOutcome>, rest: seq<DecodeOutcome>)
    requires forall i :: 0 <= i < |prefix| ==> !Terminal(prefix[i])
    ensures Aggregate(prefix + [EndOfBody] + rest) == Ok(Text(prefix))
  {
    var outs := prefix + [EndOfBody];
    StopsAt(outs, |prefix|);
    LaterOutcomesNeverRead(outs, rest);
    assert outs[..|prefix|] == prefix;
  }

  /** A decoding failure before any fragment marked done fails the call and
      discards the texts received so far. */
  lemma DecodeFailureDiscardsPartial(prefix: seq<DecodeOutcome>, rest: seq<DecodeOutcome>)
    requires forall i :: 0 <= i < |prefix| ==> !Terminal(prefix[i])
    ensures Aggregate(prefix + [DecodeFailure] + rest) == Err(StreamReadError)
  {
    var outs := prefix + [DecodeFailure];
    StopsAt(outs, |prefix|);
    LaterOutcomesNeverRead(outs, rest);
  }

  lemma StopsAt(outs: seq<DecodeOutcome>, k: nat)
    requires k < |outs| && Terminal(outs[k])
    requires forall j :: 0 <= j < k ==> !Terminal(outs[j])
    ensures FirstStop(outs) == k
  {
  }

  /** The streaming loop of the client: decode objects one by one, appending
      each text, until a fragment marked done, the end of the body or a
      decoding failure. */
  method ConsumeStream(outs: seq<DecodeOutcome>) returns (r: Result<string>)
    ensures r == Aggregate(outs)
  {
    var resultStream := "";
    var i := 0;
    while i < |outs|
      invariant 0 <= i <= |outs|
      invariant forall j :: 0 <= j < i ==> !Terminal(outs[j])
      invariant resultStream == Text(outs[..i])
    {
      var outcome := outs[i];
      if outcome.EndOfBody? {
        StopsAt(outs, i);
        return Ok(resultStream);
      } else if outcome.DecodeFailure? {
        StopsAt(outs, i);
        return Err(StreamReadError);
      }
      assert outs[..i + 1][..i] == outs[..i];
      resultStream := resultStream + outcome.chunk.message.content;
      if outcome.chunk.done {
        StopsAt(outs, i);
        return Ok(resultStream);
      }
      i := i + 1;
    }
    assert outs[..i] == outs;
    return Ok(resultStream);
  }

  /** The reply without streaming: exactly one object is decoded and its text
      is returned, whether or not it is marked done; an empty body is a
      decoding error like any other. */
  function DecodeSingle(outs: seq<DecodeOutcome>): (r: Result<string>)
    ensures r.Ok? <==> |outs| > 0 && outs[0].Decoded?
    ensures r.Ok? ==> r.value == outs[0].chunk.message.content
    ensures r.Err? ==> r.error == ResponseDecodeError
  {
    if |outs| > 0 && outs[0].Decoded? then Ok(outs[0].chunk.message.content) else Err(ResponseDecodeError)
  }

  /** When the body holds one complete reply (an object marked done, or one
      object followed by the end of the body), streaming and single-shot
      consumption give the same text. */
  lemma SingleAgreesWithStream(reply: StreamResponse, rest: seq<DecodeOutcome>)
    requires reply.done || |rest| == 0 || rest[0].EndOfBody?
    ensures DecodeSingle([Decoded(reply)] + rest) == Aggregate([Decoded(reply)] + rest)
  {
    assert [Decoded(reply)][..0] == [];
    assert Text([Decoded(reply)]) == reply.message.content;
    if reply.done {
      DoneFragmentEndsReply([], reply, rest);
      assert [] + [Decoded(reply)] + rest == [Decoded(reply)] + rest;
    } else if |rest| == 0 {
      assert [Decoded(reply)] + rest == [Decoded(reply)];
      assert FirstStop([Decoded(reply)]) == 1;
      assert [Decoded(reply)][..1] == [Decoded(reply)];
    } else {
      EndOfBodyKeepsPartial([Decoded(reply)], rest[1..]);
      assert [Decoded(reply)] + [EndOfBody] + rest[1..] == [Decoded(reply)] + rest;
    }
  }

  /** A body whose outcome list runs out is read as one that ends cleanly
      right there. */
  lemma RunsOutIsEndOfBody(outs: seq<DecodeOutcome>)
    ensures Aggregate(outs) == Aggregate(outs + [EndOfBody])
  {
    var k := FirstStop(outs);
    if k < |outs| {
      LaterOutcomesNeverRead(outs, [EndOfBody]);
    } else {
      EndOfBodyKeepsPartial(outs, []);
      assert outs + [EndOfBody] + [] == outs + [EndOfBody];
      assert outs[..k] == outs;
    }
  }

  /** The text of a one-outcome list is that outcome's text. */
  lemma TextSingle(o: DecodeOutcome)
    ensures Text([o]) == ContentOf(o)
  {
    assert [o][..0] == [];
  }

  /** Two fragments, the second marked done, give their joined texts. */
  lemma DoneScenario(model: string, at: string, rest: seq<DecodeOutcome>)
    ensures Aggregate([Decoded(Fragment(model, at, "Hel", false)), Decoded(Fragment(model, at, "lo", true))] + rest)
         == Ok("Hello")
  {
    var hel := Decoded(Fragment(model, at, "Hel", false));
    var lo := Fragment(model, at, "lo", true);
    assert [hel] + [Decoded(lo)] + rest == [hel, Decoded(lo)] + rest;
    TextSingle(hel);
    DoneFragmentEndsReply([hel], lo, rest);
    assert "Hel" + "lo" == "Hello";
  }

  /** Two unmarked fragments followed by the end of the body give their joined texts. */
  lemma EndOfBodyScenario(model: string, at: string, rest: seq<DecodeOutcome>)
    ensures Aggregate([Decoded(Fragment(model, at, "A", false)), Decoded(Fragment(model, at, "B", false)), EndOfBody] + rest)
         == Ok("AB")
  {
    var a := Decoded(Fragment(model, at, "A", false));
    var b := Decoded(Fragment(model, at, "B", false));
    EndOfBodyKeepsPartial([a, b], rest);
    assert [a, b][..1] == [a];
    assert [a][..0] == [];
    assert Text([a]) == "A";
    assert "A" + "B" == "AB";
    assert Text([a, b]) == "AB";
    assert [a, b] + [EndOfBody] + rest == [a, b, EndOfBody] + rest;
  }

  /** A fragment followed by a decoding failure is an error, not its text. */
  lemma DecodeFailureScenario(model: string, at: string, rest: seq<DecodeOutcome>)
    ensures Aggregate([Decoded(Fragment(model, at, "partial", false)), DecodeFailure] + rest)
         == Err(StreamReadError)
  {
    var p := Decoded(Fragment(model, at, "partial", false));
    DecodeFailureDiscardsPartial([p], rest);
    assert [p] + [DecodeFailure] + rest == [p, DecodeFailure] + rest;
  }

  /** One object of the reply, with the assistant's text. */
  function Fragment(model: string, at: string, content: string, done: bool): StreamResponse {
    StreamResponse(model, at, Message("assistant", content), done)
  }
}
