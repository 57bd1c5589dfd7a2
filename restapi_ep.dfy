/**
 * RestApiEndpoint: the integer and framing logic of the robot's HTTP and
 * WebSocket server — map index arithmetic, the map and lidar-point frames,
 * the status rule of the serial-forwarding route, and the registry of
 * per-connection sender workers.
 */
module RestApiEndpoint {
  import opened Common
  import ArduinoSerial

  /** Side of the square SLAM map, in pixels. */
  const MapSizePixels: int := 800

  /** coords2index on integer-valued coordinates. */
  function Coords2Index(x: int, y: int): int
  {
    y * MapSizePixels + x
  }

  /** Every on-map pixel has its index inside the 800 x 800 buffer, and the
      index gives the pixel back, so no two pixels share an index. */
  lemma Coords2IndexIsRowMajor(x: int, y: int)
    requires 0 <= x < MapSizePixels && 0 <= y < MapSizePixels
    ensures 0 <= Coords2Index(x, y) < MapSizePixels * MapSizePixels
    ensures Coords2Index(x, y) / MapSizePixels == y && Coords2Index(x, y) % MapSizePixels == x
  {
    RowMajorInRange(MapSizePixels, MapSizePixels, x, y);
    RowMajorInverse(MapSizePixels, x, y);
  }

  lemma Coords2IndexInjective(x1: int, y1: int, x2: int, y2: int)
    requires 0 <= x1 < MapSizePixels && 0 <= y1 < MapSizePixels
    requires 0 <= x2 < MapSizePixels && 0 <= y2 < MapSizePixels
    ensures Coords2Index(x1, y1) == Coords2Index(x2, y2) <==> x1 == x2 && y1 == y2
  {
    RowMajorInjective(MapSizePixels, x1, y1, x2, y2);
  }

  /** The "map" array of one /ws/map frame: 800 rows of 800 pixel values
      read from the flat SLAM map. */
  method MapFrame(mapData: seq<byte>) returns (rows: seq<seq<byte>>)
    requires |mapData| == MapSizePixels * MapSizePixels
    ensures |rows| == MapSizePixels
    ensures forall y :: 0 <= y < |rows| ==> |rows[y]| == MapSizePixels
    ensures forall y, x :: 0 <= y < MapSizePixels && 0 <= x < MapSizePixels ==>
              rows[y][x] == mapData[Coords2Index(x, y)]
    ensures Flatten(rows) == mapData
  {
    rows := [];
    for y := 0 to MapSizePixels
      invariant |rows| == y
      invariant forall j :: 0 <= j < y ==> |rows[j]| == MapSizePixels
      invariant forall j, x :: 0 <= j < y && 0 <= x < MapSizePixels ==>
                  rows[j][x] == mapData[Coords2Index(x, j)]
    {
      var row: seq<byte> := [];
      for x := 0 to MapSizePixels
        invariant |row| == x
        invariant forall i :: 0 <= i < x ==> row[i] == mapData[Coords2Index(i, y)]
      {
        Coords2IndexIsRowMajor(x, y);
        row := row + [mapData[Coords2Index(x, y)]];
      }
      rows := rows + [row];
    }
    UnflattenRoundTrip(rows, mapData, MapSizePixels);
  }

  /** One lidar return (PointData); only x and y reach the frame. */
  datatype ScanPoint = ScanPoint(angle: real, distance: nat, intensity: byte, stamp: nat, x: real, y: real)

  /** One {"x": .., "y": ..} element of a "points" array. */
  datatype PointJson = PointJson(x: real, y: real)

  /** The "points" array of /lidar/data and of one /ws/lidar frame: one
      element per scan point, in scan order, with its coordinates. */
  method PointsFrame(scan: seq<ScanPoint>) returns (points: seq<PointJson>)
    ensures |points| == |scan|
    ensures forall i :: 0 <= i < |scan| ==> points[i].x == scan[i].x && points[i].y == scan[i].y
  {
    points := [];
    for i := 0 to |scan|
      invariant |points| == i
      invariant forall j :: 0 <= j < i ==> points[j] == PointJson(scan[j].x, scan[j].y)
    {
      points := points + [PointJson(scan[i].x, scan[i].y)];
    }
  }

  /** A parsed JSON document (parsing itself is a foreign library). */
  datatype Json =
    | JNull
    | JBool(b: bool)
    | JNumber(n: int)
    | JString(s: string)
    | JArray(items: seq<Json>)
    | JObject(fields: map<string, Json>)

  datatype Response = Response(status: int, body: string)

  const OkBody := "{\"status\":\"ok\"}"
  const InvalidJsonBody := "{\"status\":\"error\",\"reason\":\"invalid JSON\"}"

  /** The command /arduino/send forwards: the string under "data".  A body
      that does not parse, is not an object (null becomes an object without
      "data"), lacks "data" or holds a non-string there throws, and the
      route answers 400. */
  function SendCommand(parsed: Option<Json>): (cmd: Option<string>)
    ensures cmd.Some? <==>
      parsed.Some? && parsed.value.JObject? && "data" in parsed.value.fields
      && parsed.value.fields["data"].JString?
    ensures cmd.Some? ==> cmd.value == parsed.value.fields["data"].s
  {
    match parsed
    case Some(JObject(fields)) =>
      if "data" in fields && fields["data"].JString? then Some(fields["data"].s) else None
    case _ => None
  }

  /** The response of /arduino/send for a request body. */
  function SendResponse(parsed: Option<Json>): (r: Response)
    ensures r.status == 200 <==> SendCommand(parsed).Some?
    ensures r.status == 200 ==> r.body == OkBody
    ensures r.status != 200 ==> r.status == 400 && r.body == InvalidJsonBody
  {
    if SendCommand(parsed).Some? then Response(200, OkBody) else Response(400, InvalidJsonBody)
  }

  /** The /arduino/send handler: forwards the command over the serial
      link and answers 200 whether or not the port accepted it. */
  method HandleArduinoSend(arduino: ArduinoSerial.Port, parsed: Option<Json>) returns (r: Response)
    modifies arduino
    ensures r == SendResponse(parsed)
    ensures arduino.isOpen == old(arduino.isOpen) && arduino.input == old(arduino.input)
    ensures arduino.output ==
      if SendCommand(parsed).Some? && old(arduino.isOpen)
      then old(arduino.output) + SendCommand(parsed).value + "\n"
      else old(arduino.output)
  {
    var cmd := SendCommand(parsed);
    if cmd.None? {
      return Response(400, InvalidJsonBody);
    }
    var _ := arduino.Send(cmd.value);
    r := Response(200, OkBody);
  }

  /** A WebSocket connection, identified as the map key identifies it. */
  type Connection = nat

  /** The ws_threads map from each open WebSocket connection to its sender
      worker's running flag. */
  class Registry {
    var workers: map<Connection, bool>

    constructor ()
      ensures workers == map[]
    {
      workers := map[];
    }

    /** onopen: start a running worker for the connection, replacing any
        entry it had. */
    method OnOpen(conn: Connection)
      modifies this
      ensures workers == old(workers)[conn := true]
    {
      workers := workers[conn := true];
    }

    /** onclose: stop and drop the connection's worker, if any; every other
        connection keeps its entry.  `stopped` tells whether it had one. */
    method OnClose(conn: Connection) returns (stopped: bool)
      modifies this
      ensures stopped <==> conn in old(workers)
      ensures workers == old(workers) - {conn}
      ensures conn !in workers
      ensures forall c :: c in old(workers) && c != conn ==> c in workers && workers[c] == old(workers)[c]
    {
      stopped := conn in workers;
      if stopped {
        workers := workers - {conn};
      }
    }

    /** Server shutdown: stop every worker and empty the map. */
    method Shutdown()
      modifies this
      ensures workers == map[]
    {
      workers := map[];
    }
  }
}
