/**
 * The browser client: the state of the `App` component and the callbacks
 * that change it. `onmessage` records the count, extends the history and
 * redraws the overlay; every 200 ms `sendFrame` encodes the current video
 * frame and, once the encoding is read back as a data URL, sends it if the
 * socket is open.
 */
module App {
  import opened Results
  import opened Protocol
  import History
  import Overlay
  import Base64
  import DataUrl
  import Seqs

  /** `WebSocket.readyState`. */
  datatype ReadyState = Connecting | Open | Closing | Closed

  /** The size of the overlay canvas, as the page declares it. */
  const CanvasWidth: int := 640
  const CanvasHeight: int := 480

  class Client {
    /** React state: the latest count and the rolling history. */
    var peopleCount: int
    var history: seq<History.Sample>
    /** Every command issued to the overlay canvas's 2D context so far. */
    var canvas: seq<Overlay.DrawCommand>
    /** Whether the canvas and video elements are mounted (their refs are set). */
    var canvasMounted: bool
    var videoMounted: bool
    /** `videoWidth` and `videoHeight`: zero until the camera stream has loaded. */
    var videoWidth: int
    var videoHeight: int
    /** The socket as the browser reports it, and every payload handed to `ws.send`. */
    var readyState: ReadyState
    var sent: seq<string>

    /** The component's first render: count 0, empty history, nothing drawn or sent. */
    constructor ()
      ensures peopleCount == 0 && history == [] && canvas == [] && sent == []
      ensures canvasMounted && videoMounted && videoWidth == 0 && videoHeight == 0
      ensures readyState == Connecting
    {
      peopleCount := 0;
      history := [];
      canvas := [];
      canvasMounted, videoMounted := true, true;
      videoWidth, videoHeight := 0, 0;
      readyState := Connecting;
      sent := [];
    }

    /**
     * `ws.onmessage` with the parsed result and the time text of its arrival:
     * set the count, append one sample, and, when both elements are mounted,
     * clear the canvas and draw every box in order.
     */
    method OnMessage(data: Response, time: string)
      modifies this`peopleCount, this`history, this`canvas
      ensures peopleCount == data.count
      ensures history == History.Append(old(history), History.Sample(time, data.count))
      ensures canvasMounted && videoMounted ==>
        canvas == old(canvas) + [Overlay.ClearRect(0, 0, CanvasWidth, CanvasHeight)] + Overlay.Overlay(data.boxes)
      ensures !(canvasMounted && videoMounted) ==> canvas == old(canvas)
      ensures canvasMounted && videoMounted ==> Overlay.Visible(canvas) == Overlay.Overlay(data.boxes)
    {
      peopleCount := data.count;
      history := History.Append(history, History.Sample(time, data.count));
      if !canvasMounted || !videoMounted {
        return;
      }
      canvas := canvas + [Overlay.ClearRect(0, 0, CanvasWidth, CanvasHeight)];
      DrawBoxes(data.boxes);
      Overlay.OverlayReplaces(old(canvas), Overlay.ClearRect(0, 0, CanvasWidth, CanvasHeight), data.boxes);
    }

    /** The `data.boxes.forEach` body run on every box in order: a rectangle and a label each. */
    method DrawBoxes(boxes: seq<Box>)
      modifies this`canvas
      ensures canvas == old(canvas) + Overlay.Overlay(boxes)
    {
      for i := 0 to |boxes|
        invariant canvas == old(canvas) + Overlay.Overlay(boxes[..i])
      {
        var box := boxes[i];
        var stroke := Overlay.StrokeRect(box.x1, box.y1, box.x2 - box.x1, box.y2 - box.y1, Overlay.Color, Overlay.LineWidth);
        var text := Overlay.FillText(Overlay.Label(i), box.x1, box.y1 - Overlay.LabelOffset, Overlay.Font, Overlay.Color);
        assert Overlay.BoxCommands(box, i) == [stroke, text];
        Overlay.OverlayStep(boxes, i);
        Seqs.SnocTwo(old(canvas), Overlay.Overlay(boxes[..i]), stroke, text);
        canvas := canvas + [stroke];
        canvas := canvas + [text];
      }
      assert boxes[..|boxes|] == boxes;
    }

    /**
     * The synchronous part of `sendFrame`: nothing happens unless the video
     * is mounted and has a size; otherwise `blob` is what `toBlob` hands to
     * its callback (None for a null blob), and the result is the data URL
     * `readAsDataURL` will produce from it.
     */
    method SendFrame(blob: Option<Base64.Bytes>) returns (payload: Option<string>)
      ensures payload.Some? <==> videoMounted && videoWidth != 0 && videoHeight != 0 && blob.Some?
      ensures payload.Some? ==> payload == Some(DataUrl.Make(DataUrl.JpegMime, blob.value))
    {
      if !videoMounted {
        return None;
      }
      if videoWidth == 0 || videoHeight == 0 {
        return None;
      }
      if blob.None? {
        return None;
      }
      payload := Some(DataUrl.Make(DataUrl.JpegMime, blob.value));
    }

    /** `reader.onloadend`: send when the socket is open, otherwise drop the payload. */
    method OnLoadEnd(payload: string)
      modifies this`sent
      ensures readyState == Open ==> sent == old(sent) + [payload]
      ensures readyState != Open ==> sent == old(sent)
    {
      if readyState == Open {
        sent := sent + [payload];
      }
    }

    /**
     * One tick with its callbacks run to completion: at most one payload is
     * sent, and it is sent only from an open socket for a loaded video.
     */
    method Tick(blob: Option<Base64.Bytes>)
      modifies this`sent
      ensures videoMounted && videoWidth != 0 && videoHeight != 0 && blob.Some? && readyState == Open ==>
        sent == old(sent) + [DataUrl.Make(DataUrl.JpegMime, blob.value)]
      ensures !(videoMounted && videoWidth != 0 && videoHeight != 0 && blob.Some? && readyState == Open) ==>
        sent == old(sent)
    {
      var payload := SendFrame(blob);
      if payload.Some? {
        OnLoadEnd(payload.value);
      }
    }
  }

}
