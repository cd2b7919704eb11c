/**
 * The detection server: `decode_base64_image` turns a received data URL into
 * image bytes, and `websocket_endpoint` answers every received frame with the
 * people the detector found in it. The detector (image decoding plus the
 * object-detection model) is a function parameter returning one record per
 * detection.
 */
module Server {
  import opened Results
  import opened Protocol
  import Base64
  import DataUrl
  import Seqs

  /** The detector's class index for "person". */
  const PersonClass: int := 0

  /** One entry of `results.boxes`: class index, corners of `xyxy[0]`, and `conf[0]`. */
  datatype Detection = Detection(cls: int, x1: int, y1: int, x2: int, y2: int, conf: real)

  type Detector = Base64.Bytes -> seq<Detection>

  /** How a received text frame becomes image bytes; the endpoint uses `DecodeBase64Image`. */
  type Decoder = string -> Result<Base64.Bytes>

  /**
   * `decode_base64_image` up to the image bytes: `b64decode(s.split(",")[1])`.
   * Input without a comma raises `IndexError` (there is no empty payload);
   * with a comma, the only failure left is an invalid encoding.
   */
  function DecodeBase64Image(s: string): (r: Result<Base64.Bytes>)
    ensures DataUrl.Comma !in s ==> r == Err(IndexOutOfRange)
    ensures DataUrl.Comma in s && r.Err? ==> r.error == InvalidBase64
  {
    match DataUrl.Payload(s)
    case Err(e) => Err(e)
    case Ok(text) => Base64.Decode(text)
  }

  /** What the client sends decodes on the server to exactly the blob it encoded. */
  lemma DecodeClientFrame(blob: Base64.Bytes)
    ensures DecodeBase64Image(DataUrl.Make(DataUrl.JpegMime, blob)) == Ok(blob)
  {
    DataUrl.PayloadOfMake(DataUrl.JpegMime, blob);
    Base64.DecodeEncode(blob);
  }

  /** `[box for box in results.boxes if int(box.cls) == 0]`. */
  function People(dets: seq<Detection>): (p: seq<Detection>)
    ensures |p| <= |dets|
    ensures forall i :: 0 <= i < |p| ==> p[i].cls == PersonClass
  {
    if dets == [] then []
    else if dets[0].cls == PersonClass then [dets[0]] + People(dets[1..])
    else People(dets[1..])
  }

  /** A detection is kept exactly when it is a person. */
  lemma {:induction false} PeopleMembers(dets: seq<Detection>, d: Detection)
    ensures d in People(dets) <==> d in dets && d.cls == PersonClass
  {
    if dets != [] {
      PeopleMembers(dets[1..], d);
      assert d in dets <==> d == dets[0] || d in dets[1..];
    }
  }

  /** Filtering distributes over concatenation: people keep their relative order. */
  lemma {:induction false} PeopleAppend(a: seq<Detection>, b: seq<Detection>)
    ensures People(a + b) == People(a) + People(b)
  {
    if a == [] {
      assert a + b == b;
    } else {
      var ab := a + b;
      assert ab[0] == a[0] && ab[1..] == a[1..] + b;
      PeopleAppend(a[1..], b);
      Seqs.ConsAssoc(a[0], People(a[1..]), People(b));
    }
  }

  /** `p` is `s` with some elements left out and the rest in their original order. */
  ghost predicate IsSubsequence<T>(p: seq<T>, s: seq<T>)
    decreases |s|
  {
    p == [] ||
    (s != [] && ((p[0] == s[0] && IsSubsequence(p[1..], s[1..])) || IsSubsequence(p, s[1..])))
  }

  /** The people are a subsequence of the detections: order is preserved. */
  lemma {:induction false} PeopleInOrder(dets: seq<Detection>)
    ensures IsSubsequence(People(dets), dets)
  {
    if dets != [] {
      PeopleInOrder(dets[1..]);
      var p := People(dets);
      if dets[0].cls == PersonClass {
        assert p[0] == dets[0] && p[1..] == People(dets[1..]);
      }
    }
  }

  /** The response record for one detection: `{"x1", "y1", "x2", "y2", "conf"}` in `xyxy` order. */
  function ToBox(d: Detection): Box {
    Box(d.x1, d.y1, d.x2, d.y2, d.conf)
  }

  function Boxes(people: seq<Detection>): (boxes: seq<Box>)
    ensures |boxes| == |people|
    ensures forall i :: 0 <= i < |people| ==> boxes[i] == ToBox(people[i])
  {
    if people == [] then [] else [ToBox(people[0])] + Boxes(people[1..])
  }

  /** The response for one frame: the people's boxes and their number. */
  function Respond(dets: seq<Detection>): (r: Response)
    ensures r.count == |r.boxes| <= |dets|
  {
    var people := People(dets);
    Response(|people|, Boxes(people))
  }

  /**
   * Every response box is the `xyxy` corners and confidence of a person
   * detection, the i-th box of the i-th person, and `count == len(boxes)`.
   */
  lemma RespondDescribesPeople(dets: seq<Detection>)
    ensures var r, p := Respond(dets), People(dets);
      && r.count == |r.boxes| == |p|
      && forall i :: 0 <= i < |p| ==>
           p[i].cls == PersonClass && p[i] in dets &&
           r.boxes[i] == Box(p[i].x1, p[i].y1, p[i].x2, p[i].y2, p[i].conf)
  {
    var p := People(dets);
    forall i | 0 <= i < |p| ensures p[i] in dets {
      PeopleMembers(dets, p[i]);
    }
  }

  /** The loop of `websocket_endpoint` that builds `boxes` in place, one append per person. */
  method AssembleResponse(dets: seq<Detection>) returns (response: Response)
    ensures response == Respond(dets)
    ensures response.count == |response.boxes|
  {
    var people := People(dets);
    var boxes: seq<Box> := [];
    for i := 0 to |people|
      invariant boxes == Boxes(people[..i])
    {
      assert people[..i + 1] == people[..i] + [people[i]];
      BoxesAppend(people[..i], people[i]);
      boxes := boxes + [ToBox(people[i])];
    }
    assert people[..|people|] == people;
    response := Response(|people|, boxes);
  }

  lemma {:induction false} BoxesAppend(people: seq<Detection>, d: Detection)
    ensures Boxes(people + [d]) == Boxes(people) + [ToBox(d)]
  {
    var l, r := Boxes(people + [d]), Boxes(people) + [ToBox(d)];
    assert |l| == |r|;
    forall i | 0 <= i < |l| ensures l[i] == r[i] {
      if i < |people| {
        assert (people + [d])[i] == people[i];
      }
    }
  }

  /** What the server reads from the socket: a text frame, or the client going away. */
  datatype Inbound = Text(data: string) | Disconnect

  /** How a run of the endpoint ends. */
  datatype Ending =
    | Disconnected          // `WebSocketDisconnect`, caught: the handler returns normally
    | Raised(error: Error)  // any other exception leaves the handler
    | Waiting               // still connected, blocked on the next receive

  /** Frames the server can decode. */
  predicate Decodable(e: Inbound, decode: Decoder) {
    e.Text? && decode(e.data).Ok?
  }

  /** The image bytes of a decodable frame. */
  function Decoded(e: Inbound, decode: Decoder): Base64.Bytes
    requires Decodable(e, decode)
  {
    decode(e.data).value
  }

  /** The responses sent for a run of inbound events, and how the run ends. */
  function Session(events: seq<Inbound>, decode: Decoder, detect: Detector): (r: (seq<Response>, Ending))
    ensures |r.0| <= |events|
    ensures r.1 == Waiting <==> |r.0| == |events|
    decreases |events|
  {
    if events == [] then ([], Waiting)
    else if events[0].Disconnect? then ([], Disconnected)
    else if !Decodable(events[0], decode) then ([], Raised(decode(events[0].data).error))
    else
      var rest := Session(events[1..], decode, detect);
      ([Respond(detect(Decoded(events[0], decode)))] + rest.0, rest.1)
  }

  /**
   * The events still unread when the run ends: everything after the event
   * that ended it, and nothing when the loop is still waiting. They are
   * always a suffix of the events.
   */
  function Unread(events: seq<Inbound>, decode: Decoder): (u: seq<Inbound>)
    ensures |u| <= |events| && u == events[|events| - |u|..]
    decreases |events|
  {
    if events == [] then []
    else if !Decodable(events[0], decode) then events[1..]
    else
      var u := Unread(events[1..], decode);
      assert events[1..][|events| - 1 - |u|..] == events[|events| - |u|..];
      u
  }

  /**
   * Every event is accounted for exactly once: it is answered, it ended the
   * run, or it was never read.
   */
  lemma {:induction false} EventsAccounted(events: seq<Inbound>, decode: Decoder, detect: Detector)
    ensures var r := Session(events, decode, detect);
      |events| == |r.0| + (if r.1 == Waiting then 0 else 1) + |Unread(events, decode)|
    decreases |events|
  {
    if events != [] && Decodable(events[0], decode) {
      EventsAccounted(events[1..], decode, detect);
    }
  }

  /** One turn of the loop: a decodable frame is answered and the loop goes on with the rest. */
  lemma SessionStep(events: seq<Inbound>, decode: Decoder, detect: Detector)
    requires events != [] && Decodable(events[0], decode)
    ensures Session(events, decode, detect) ==
      ([Respond(detect(Decoded(events[0], decode)))] + Session(events[1..], decode, detect).0, Session(events[1..], decode, detect).1)
  {
  }

  /** While connected, every decodable message gets exactly one response, in order. */
  lemma {:induction false} OneResponsePerMessage(events: seq<Inbound>, decode: Decoder, detect: Detector)
    requires forall i :: 0 <= i < |events| ==> Decodable(events[i], decode)
    ensures var r := Session(events, decode, detect);
      && r.1 == Waiting
      && |r.0| == |events|
      && forall i :: 0 <= i < |events| ==> r.0[i] == Respond(detect(Decoded(events[i], decode)))
    decreases |events|
  {
    if events != [] {
      OneResponsePerMessage(events[1..], decode, detect);
      SessionStep(events, decode, detect);
      var r := Session(events, decode, detect);
      forall i | 0 <= i < |events|
        ensures r.0[i] == Respond(detect(Decoded(events[i], decode)))
      {
        if i > 0 {
          assert events[1..][i - 1] == events[i];
        }
      }
    }
  }

  /**
   * The run is decided by the first frame that is not answered: every
   * decodable frame before it gets its response, and the loop ends the way
   * that frame makes it end, whatever follows.
   */
  lemma {:induction false} SessionStopsAt(pre: seq<Inbound>, tail: seq<Inbound>, decode: Decoder, detect: Detector)
    requires forall i :: 0 <= i < |pre| ==> Decodable(pre[i], decode)
    requires tail != [] && !Decodable(tail[0], decode)
    ensures Session(pre + tail, decode, detect) == (Session(pre, decode, detect).0, Session(tail, decode, detect).1)
    decreases |pre|
  {
    if pre == [] {
      assert pre + tail == tail;
    } else {
      var all := pre + tail;
      assert all[0] == pre[0] && all[1..] == pre[1..] + tail;
      SessionStopsAt(pre[1..], tail, decode, detect);
      SessionStep(pre, decode, detect);
      SessionStep(all, decode, detect);
    }
  }

  /** The events after the first unanswered one are never read. */
  lemma {:induction false} UnreadStopsAt(pre: seq<Inbound>, tail: seq<Inbound>, decode: Decoder)
    requires forall i :: 0 <= i < |pre| ==> Decodable(pre[i], decode)
    requires tail != [] && !Decodable(tail[0], decode)
    ensures Unread(pre + tail, decode) == tail[1..]
    decreases |pre|
  {
    if pre == [] {
      assert pre + tail == tail;
    } else {
      var all := pre + tail;
      assert all[0] == pre[0] && all[1..] == pre[1..] + tail;
      UnreadStopsAt(pre[1..], tail, decode);
    }
  }

  /** A disconnect ends the loop normally; nothing after it is read or answered. */
  lemma DisconnectEndsSession(pre: seq<Inbound>, post: seq<Inbound>, decode: Decoder, detect: Detector)
    requires forall i :: 0 <= i < |pre| ==> Decodable(pre[i], decode)
    ensures Session(pre + [Disconnect] + post, decode, detect) == (Session(pre, decode, detect).0, Disconnected)
    ensures Unread(pre + [Disconnect] + post, decode) == post
  {
    var tail := [Disconnect] + post;
    assert tail[0] == Disconnect && tail[1..] == post;
    assert pre + [Disconnect] + post == pre + tail;
    SessionStopsAt(pre, tail, decode, detect);
    UnreadStopsAt(pre, tail, decode);
  }

  /** A frame without a comma makes the handler raise, with no response for it. */
  lemma MalformedFrameRaises(pre: seq<Inbound>, s: string, post: seq<Inbound>, detect: Detector)
    requires forall i :: 0 <= i < |pre| ==> Decodable(pre[i], DecodeBase64Image)
    requires DataUrl.Comma !in s
    ensures Session(pre + [Text(s)] + post, DecodeBase64Image, detect) ==
      (Session(pre, DecodeBase64Image, detect).0, Raised(IndexOutOfRange))
    ensures Unread(pre + [Text(s)] + post, DecodeBase64Image) == post
  {
    var tail := [Text(s)] + post;
    assert tail[0] == Text(s) && tail[1..] == post;
    assert pre + [Text(s)] + post == pre + tail;
    SessionStopsAt(pre, tail, DecodeBase64Image, detect);
    UnreadStopsAt(pre, tail, DecodeBase64Image);
  }

  /** The server's side of the connection: frames still to be read and JSON responses sent. */
  class ServerSocket {
    var inbox: seq<Inbound>
    var outbox: seq<Response>

    constructor (events: seq<Inbound>)
      ensures inbox == events && outbox == []
    {
      inbox := events;
      outbox := [];
    }

    /** `receive_text`; None when nothing has arrived (the real call then blocks). */
    method Receive() returns (e: Option<Inbound>)
      modifies this`inbox
      ensures old(inbox) == [] ==> e == None && inbox == []
      ensures old(inbox) != [] ==> e == Some(old(inbox)[0]) && inbox == old(inbox)[1..]
    {
      if inbox == [] {
        e := None;
      } else {
        e := Some(inbox[0]);
        inbox := inbox[1..];
      }
    }

    /** `send_json`. */
    method SendJson(r: Response)
      modifies this`outbox
      ensures outbox == old(outbox) + [r]
    {
      outbox := outbox + [r];
    }
  }

  /** `websocket_endpoint` after `accept`: receive, decode, detect, respond, until the loop ends. */
  method WebsocketEndpoint(ws: ServerSocket, detect: Detector) returns (ending: Ending)
    modifies ws
    ensures ws.outbox == old(ws.outbox) + Session(old(ws.inbox), DecodeBase64Image, detect).0
    ensures ending == Session(old(ws.inbox), DecodeBase64Image, detect).1
    ensures ws.inbox == Unread(old(ws.inbox), DecodeBase64Image)
  {
    while true
      invariant old(ws.outbox) + Session(old(ws.inbox), DecodeBase64Image, detect).0 == ws.outbox + Session(ws.inbox, DecodeBase64Image, detect).0
      invariant Session(old(ws.inbox), DecodeBase64Image, detect).1 == Session(ws.inbox, DecodeBase64Image, detect).1
      invariant Unread(old(ws.inbox), DecodeBase64Image) == Unread(ws.inbox, DecodeBase64Image)
      decreases |ws.inbox|
    {
      ghost var before := ws.inbox;
      var event := ws.Receive();
      match event
      case None =>
        return Waiting;
      case Some(Disconnect) =>
        return Disconnected;
      case Some(Text(data)) =>
        var image := DecodeBase64Image(data);
        if image.Err? {
          return Raised(image.error);
        }
        SessionStep([Text(data)] + ws.inbox, DecodeBase64Image, detect);
        assert ([Text(data)] + ws.inbox)[1..] == ws.inbox;
        var response := AssembleResponse(detect(image.value));
        Seqs.SnocAssoc(ws.outbox, response, Session(ws.inbox, DecodeBase64Image, detect).0);
        ws.SendJson(response);
    }
  }
}
