/**
 * The JSON message the server sends back for every frame and the client
 * reads in its `onmessage` handler: `{count, boxes: [{x1, y1, x2, y2, conf}]}`.
 */
module Protocol {

  /** One detected person; integer pixel corners, the confidence passed through untouched. */
  datatype Box = Box(x1: int, y1: int, x2: int, y2: int, conf: real)

  datatype Response = Response(count: int, boxes: seq<Box>)
}
