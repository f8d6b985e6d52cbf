/**
 The position table of `ObjectDetector.find_position` and the detection
 schedule of the module's camera loop.

 A detection is what the detector reports for one object: its bounding box
 and its ranked categories. The table maps the name of each detection's top
 category to that detection's index, box and integer centre; a later
 detection with the same name replaces an earlier one. The camera loop runs
 the detector only on every twelfth frame and reuses the last table between.
 */
module ObjectPositions {

  datatype BoundingBox = BoundingBox(originX: int, originY: int, width: int, height: int)

  /** A category of a detection; the score is not read by the table. */
  datatype Category = Category(categoryName: string)

  datatype Detection = Detection(boundingBox: BoundingBox, categories: seq<Category>)

  /** One value of the position table (the keys of the inner dict `find_position` builds). */
  datatype Position = Position(
    objId: nat,
    originX: int, originY: int,
    width: int, height: int,
    centreX: int, centreY: int)

  /** `categories[0]` is read, so every detection needs at least one category. */
  predicate Labelled(ds: seq<Detection>)
  {
    forall i :: 0 <= i < |ds| ==> |ds[i].categories| > 0
  }

  function Label(d: Detection): string
    requires |d.categories| > 0
  {
    d.categories[0].categoryName
  }

  /** Python's `int(n / 2)`: true division, then truncation toward zero. */
  function TruncHalf(n: int): (h: int)
    ensures n >= 0 ==> 0 <= n - 2 * h <= 1
    ensures n < 0 ==> -1 <= n - 2 * h <= 0
  {
    if n >= 0 then n / 2 else -((-n) / 2)
  }

  /**
   `int(extent / 2 + origin)`, the centre of a box side. It lies on the side
   whenever the extent is non-negative, and for non-negative fields it is
   the origin plus half the extent rounded down.
   */
  function Centre(origin: int, extent: int): (c: int)
    ensures extent >= 0 ==> origin <= c <= origin + extent
    ensures origin >= 0 && extent >= 0 ==> c == origin + extent / 2
  {
    TruncHalf(extent + 2 * origin)
  }

  /**
   The table entry made from detection number `objId`: the box copied
   unchanged, and a centre that lies inside a box with non-negative sides.
   */
  function EntryFor(objId: nat, d: Detection): (p: Position)
    ensures p.objId == objId
    ensures var b := d.boundingBox;
            && p.originX == b.originX && p.originY == b.originY
            && p.width == b.width && p.height == b.height
            && (b.width >= 0 ==> b.originX <= p.centreX <= b.originX + b.width)
            && (b.height >= 0 ==> b.originY <= p.centreY <= b.originY + b.height)
  {
    var b := d.boundingBox;
    Position(objId, b.originX, b.originY, b.width, b.height,
             Centre(b.originX, b.width), Centre(b.originY, b.height))
  }

  /**
   The table after the loop has seen `ds`, one assignment per detection, a
   later assignment to the same name overwriting an earlier one, so the
   table never has more entries than there are detections.
   */
  function PositionTable(ds: seq<Detection>): (t: map<string, Position>)
    requires Labelled(ds)
    ensures |t| <= |ds|
  {
    if ds == [] then map[]
    else
      var n := |ds| - 1;
      PositionTable(ds[..n])[Label(ds[n]) := EntryFor(n, ds[n])]
  }

  /**
   Reference definition: the index of the last detection named `name`, or
   -1 when there is none.
   */
  function LastIndexOf(ds: seq<Detection>, name: string): (i: int)
    requires Labelled(ds)
    ensures -1 <= i < |ds|
    ensures i >= 0 ==> Label(ds[i]) == name
    ensures forall j :: i < j < |ds| ==> Label(ds[j]) != name
  {
    if ds == [] then -1
    else if Label(ds[|ds| - 1]) == name then |ds| - 1
    else LastIndexOf(ds[..|ds| - 1], name)
  }

  /**
   The table holds a name exactly when some detection has it, and its entry
   is the one built from the last such detection.
   */
  lemma {:induction false} PositionTableLastWins(ds: seq<Detection>, name: string)
    requires Labelled(ds)
    ensures name in PositionTable(ds) <==> LastIndexOf(ds, name) >= 0
    ensures name in PositionTable(ds) ==>
              PositionTable(ds)[name] == EntryFor(LastIndexOf(ds, name), ds[LastIndexOf(ds, name)])
  {
    if ds != [] {
      var n := |ds| - 1;
      assert Labelled(ds[..n]);
      PositionTableLastWins(ds[..n], name);
      if Label(ds[n]) != name {
        assert LastIndexOf(ds, name) == LastIndexOf(ds[..n], name);
        var i := LastIndexOf(ds, name);
        if i >= 0 {
          assert ds[..n][i] == ds[i];
        }
      }
    }
  }

  /** The keys of the table are exactly the top-category names of the detections. */
  lemma {:induction false} PositionTableKeys(ds: seq<Detection>)
    requires Labelled(ds)
    ensures PositionTable(ds).Keys == set i | 0 <= i < |ds| :: Label(ds[i])
  {
    forall name
      ensures name in PositionTable(ds) <==> exists i :: 0 <= i < |ds| && Label(ds[i]) == name
    {
      PositionTableLastWins(ds, name);
    }
  }

  /**
   Every entry comes from some detection with its name: its `objId` indexes
   the detections, its box fields are that detection's, and its centre lies
   inside the box when the box has non-negative sides.
   */
  lemma {:induction false} PositionTableEntries(ds: seq<Detection>, name: string)
    requires Labelled(ds)
    requires name in PositionTable(ds)
    ensures PositionTable(ds)[name].objId < |ds|
    ensures var p := PositionTable(ds)[name];
            var b := ds[p.objId].boundingBox;
            && Label(ds[p.objId]) == name
            && p.originX == b.originX && p.originY == b.originY
            && p.width == b.width && p.height == b.height
            && (b.width >= 0 ==> b.originX <= p.centreX <= b.originX + b.width)
            && (b.height >= 0 ==> b.originY <= p.centreY <= b.originY + b.height)
  {
    PositionTableLastWins(ds, name);
  }

  /** `find_position`: fill the table over the detections in order. */
  method FindPosition(detections: seq<Detection>) returns (table: map<string, Position>)
    requires Labelled(detections)
    ensures table == PositionTable(detections)
    ensures detections == [] ==> table == map[]
  {
    table := map[];
    if |detections| > 0 {
      var objId := 0;
      while objId < |detections|
        invariant 0 <= objId <= |detections|
        invariant Labelled(detections[..objId])
        invariant table == PositionTable(detections[..objId])
      {
        var info := detections[objId];
        var box := info.boundingBox;
        var cx := Centre(box.originX, box.width);
        var cy := Centre(box.originY, box.height);
        assert detections[..objId + 1][..objId] == detections[..objId];
        table := table[info.categories[0].categoryName :=
          Position(objId, box.originX, box.originY, box.width, box.height, cx, cy)];
        objId := objId + 1;
      }
      assert detections[..objId] == detections;
    }
  }

  /** The camera loop runs the detector on every this-many-th frame. */
  const DetectionStride: nat := 12

  /**
   `counter % 12 == 0`, tested before the counter is incremented: of the
   first twelve frames only the first detects.
   */
  predicate RefreshesDetection(counter: nat): (r: bool)
    ensures counter < DetectionStride ==> (r <==> counter == 0)
  {
    counter % DetectionStride == 0
  }

  /** The detection pattern repeats every twelve frames. */
  lemma RefreshPeriodic(counter: nat)
    ensures RefreshesDetection(counter + DetectionStride) <==> RefreshesDetection(counter)
  {
  }

  /**
   The most recent frame, up to and including `frame`, on which the detector
   ran: the table in use at `frame` is at most eleven frames old.
   */
  function LastRefresh(frame: nat): (r: nat)
    ensures r <= frame < r + DetectionStride
    ensures RefreshesDetection(r)
    ensures forall j :: r < j <= frame ==> !RefreshesDetection(j)
  {
    frame - frame % DetectionStride
  }

  /** The run count `ceil(n / 12)` grows by one exactly at a detector frame. */
  lemma RunsStep(counter: nat)
    ensures (counter + DetectionStride) / DetectionStride
            == (counter + DetectionStride - 1) / DetectionStride + (if RefreshesDetection(counter) then 1 else 0)
  {
  }

  /** Appending the table in effect at frame `counter` keeps the loop's record of tables. */
  lemma TablesStep(frames: seq<seq<Detection>>, tables: seq<map<string, Position>>, table: map<string, Position>, counter: nat)
    requires forall k :: 0 <= k < |frames| && RefreshesDetection(k) ==> Labelled(frames[k])
    requires counter < |frames| && |tables| == counter
    requires forall k :: 0 <= k < counter ==> tables[k] == PositionTable(frames[LastRefresh(k)])
    requires table == PositionTable(frames[LastRefresh(counter)])
    ensures forall k :: 0 <= k <= counter ==> (tables + [table])[k] == PositionTable(frames[LastRefresh(k)])
  {
    forall k | 0 <= k <= counter
      ensures (tables + [table])[k] == PositionTable(frames[LastRefresh(k)])
    {
      if k < counter {
        assert (tables + [table])[k] == tables[k];
      }
    }
  }

  /**
   The detection part of the module's camera loop. `frames[k]` is what the
   detector would report on frame `k`; the result is the table in effect on
   each frame, and `runs` counts the detector calls.
   */
  method TrackFrames(frames: seq<seq<Detection>>) returns (tables: seq<map<string, Position>>, runs: nat)
    requires forall k :: 0 <= k < |frames| && RefreshesDetection(k) ==> Labelled(frames[k])
    ensures |tables| == |frames|
    ensures forall k :: 0 <= k < |frames| ==> tables[k] == PositionTable(frames[LastRefresh(k)])
    ensures runs == (|frames| + DetectionStride - 1) / DetectionStride
  {
    var counter := 0;
    var lmDict: map<string, Position> := map[];
    tables := [];
    runs := 0;
    while counter < |frames|
      invariant 0 <= counter <= |frames|
      invariant |tables| == counter
      invariant forall k :: 0 <= k < counter ==> tables[k] == PositionTable(frames[LastRefresh(k)])
      invariant counter > 0 ==> lmDict == PositionTable(frames[LastRefresh(counter - 1)])
      invariant runs == (counter + DetectionStride - 1) / DetectionStride
    {
      RunsStep(counter);
      if RefreshesDetection(counter) {
        assert LastRefresh(counter) == counter;
        lmDict := FindPosition(frames[counter]);
        runs := runs + 1;
      } else {
        assert LastRefresh(counter) == LastRefresh(counter - 1);
      }
      TablesStep(frames, tables, lmDict, counter);
      tables := tables + [lmDict];
      counter := counter + 1;
    }
  }
}
