/** Serving decisions: the mapping from a prediction to the reply (server.py)
    or the printed answer (ia.py), the handling of one connection, the accept
    loop, and ia.py's interactive loop. The trained classifier is the
    function `predict`, the image codec the function `decode`; both are
    parameters the model does not look into. */
module Service {
  import opened Wrappers
  import opened Features
  import opened Training
  import opened Framing

  /** `training_path_a` if the prediction is 0, `training_path_b` otherwise. */
  function Respond(prediction: int, pathA: string, pathB: string): (s: string)
    ensures s == pathA || s == pathB
    ensures pathA != pathB ==> (s == pathA <==> prediction == 0)
  {
    if prediction == 0 then pathA else pathB
  }

  /** `classifier.predict([features]) == 0` and the answer it selects. The
      extractor's `None` inside the list makes `predict` raise, and so does an
      exception from the extractor itself; the caller catches both and gives
      no answer. */
  function Classify(features: Result<Option<Vec>, Fault>, predict: Vec -> int,
                    pathA: string, pathB: string): (answer: Option<string>)
    ensures answer.Some? <==> features.Success? && features.value.Some?
    ensures answer.Some? ==> answer.value == pathA || answer.value == pathB
    ensures answer.Some? && pathA != pathB ==>
              (answer.value == pathA <==> predict(features.value.value) == 0)
  {
    match features
    case Success(Some(v)) => Some(Respond(predict(v), pathA, pathB))
    case _ => None
  }

  /** How one accepted connection ends. `Waiting`: the read loop is still in
      `recv`. `Closed`: an exception was caught and the socket closed without
      a reply. `Replied`: `payload` was sent, then the socket closed. */
  datatype Outcome = Waiting | Closed | Replied(payload: string)

  /** The image decoded from `data` is one the extractor accepts. */
  ghost predicate Classifiable(decode: seq<byte> -> Option<Image>, data: seq<byte>) {
    && decode(data).Some?
    && decode(data).value.mode == RGB
    && |decode(data).value.pixels| > 0
  }

  /** One pass of the accept loop's body for the chunks one client sends:
      read the request, `process_recv_image`, predict, send one class path. */
  function HandleConnection(chunks: seq<Chunk>, decode: seq<byte> -> Option<Image>,
                            predict: Vec -> int, pathA: string, pathB: string): (o: Outcome)
    ensures o.Waiting? <==> Frame(chunks).None?
    ensures o.Closed? <==> Frame(chunks).Some? && !Classifiable(decode, Frame(chunks).value)
    ensures o.Replied? ==> o.payload == pathA || o.payload == pathB
  {
    match Frame(chunks)
    case None => Waiting
    case Some(data) =>
      match Classify(ProcessDecoded(decode(data)), predict, pathA, pathB)
      case None => Closed
      case Some(answer) => Replied(answer)
  }

  /** A connection waits exactly when no short chunk arrived, is answered
      exactly when the request decodes to a non-empty RGB image, and the
      answer is path A exactly when the prediction on that image is 0. */
  lemma HandleConnectionOutcome(chunks: seq<Chunk>, decode: seq<byte> -> Option<Image>,
                                predict: Vec -> int, pathA: string, pathB: string)
    ensures var o := HandleConnection(chunks, decode, predict, pathA, pathB);
      && (o.Waiting? <==> Frame(chunks).None?)
      && (o.Replied? <==> Frame(chunks).Some? && Classifiable(decode, Frame(chunks).value))
      && (o.Replied? ==> o.payload == pathA || o.payload == pathB)
      && (o.Replied? && pathA != pathB ==>
            var img := decode(Frame(chunks).value).value;
            (o.payload == pathA <==> predict(ProcessImage(img, DEFAULT_BLOCKS).value.value) == 0))
  {
  }

  /** The accept loop over the connections in accept order. `handle` is the
      loop body with the classifier bound once before the loop, so every
      connection is handled by the same function; one whose handling raised is
      followed by the next, and only a connection whose read never completes
      holds the loop, so no later connection is served. */
  function AcceptLoop(conns: seq<seq<Chunk>>, handle: seq<Chunk> -> Outcome): (outs: seq<Outcome>)
    ensures |outs| <= |conns|
    ensures forall i :: 0 <= i < |outs| ==> outs[i] == handle(conns[i])
    ensures forall i :: 0 <= i < |outs| - 1 ==> !outs[i].Waiting?
    ensures |outs| < |conns| ==> |outs| > 0 && outs[|outs| - 1].Waiting?
    decreases |conns|
  {
    if |conns| == 0 then []
    else
      var o := handle(conns[0]);
      if o.Waiting? then [o]
      else
        var rest := AcceptLoop(conns[1..], handle);
        assert forall i :: 1 <= i < |conns| ==> conns[1..][i - 1] == conns[i];
        [o] + rest
  }

  /** server.py's `while True` loop: `classifier`, `training_path_a` and
      `training_path_b` are fixed for the whole loop. */
  function Serve(conns: seq<seq<Chunk>>, decode: seq<byte> -> Option<Image>,
                 predict: Vec -> int, pathA: string, pathB: string): (outs: seq<Outcome>)
    ensures |outs| <= |conns|
    ensures forall i :: 0 <= i < |outs| ==>
              outs[i] == HandleConnection(conns[i], decode, predict, pathA, pathB)
    ensures forall i :: 0 <= i < |outs| - 1 ==> Frame(conns[i]).Some?
    ensures |outs| < |conns| ==> |outs| > 0 && Frame(conns[|outs| - 1]).None?
  {
    AcceptLoop(conns, chunks => HandleConnection(chunks, decode, predict, pathA, pathB))
  }

  /** A malformed request costs only its own connection: it is closed without
      a reply and the connections after it are served exactly as if it had
      never arrived. */
  lemma FaultIsolation(bad: seq<Chunk>, conns: seq<seq<Chunk>>, decode: seq<byte> -> Option<Image>,
                       predict: Vec -> int, pathA: string, pathB: string)
    requires Frame(bad).Some? && decode(Frame(bad).value).None?
    ensures Serve([bad] + conns, decode, predict, pathA, pathB) ==
            [Closed] + Serve(conns, decode, predict, pathA, pathB)
  {
    assert HandleConnection(bad, decode, predict, pathA, pathB) == Closed;
    assert ([bad] + conns)[1..] == conns;
  }

  /** ia.py's interactive loop: one answer per input line (`None` when an
      exception was printed instead), ending at the first empty line. `open`
      gives the file a typed path names; `process_image_file` is applied to it. */
  function ConsoleSession(lines: seq<string>, open: string -> ImageFile,
                          predict: Vec -> int, pathA: string, pathB: string): (answers: seq<Option<string>>)
    ensures |answers| <= |lines|
    ensures forall i :: 0 <= i < |answers| ==>
              lines[i] != "" &&
              answers[i] == Classify(ProcessImageFile(open(lines[i])), predict, pathA, pathB)
    ensures |answers| < |lines| ==> lines[|answers|] == ""
    decreases |lines|
  {
    if |lines| == 0 || lines[0] == "" then []
    else
      var rest := ConsoleSession(lines[1..], open, predict, pathA, pathB);
      assert forall i :: 1 <= i < |lines| ==> lines[1..][i - 1] == lines[i];
      [Classify(ProcessImageFile(open(lines[0])), predict, pathA, pathB)] + rest
  }
}
