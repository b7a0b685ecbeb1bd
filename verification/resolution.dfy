/** The source-resolution classifier: a video stream's width is mapped to
    the height of the first entry of the fixed resolution table whose
    width, less a 10-pixel tolerance, it exceeds. */
module Resolution {
  import opened Wrappers
  import opened Strings

  datatype VideoResolution = VideoResolution(height: int, width: int)

  /** The table, in its declaration (and iteration) order. */
  const VideoResolutions: seq<VideoResolution> := [
    VideoResolution(2160, 3840),
    VideoResolution(1080, 1920),
    VideoResolution(720, 1280),
    VideoResolution(480, 720)
  ]

  /** The table's heights, in iteration order: the rungs of the ladder. */
  const Heights: seq<int> := [2160, 1080, 720, 480]

  lemma HeightsOfTable()
    ensures |Heights| == |VideoResolutions|
    ensures forall i :: 0 <= i < |Heights| ==> Heights[i] == VideoResolutions[i].height
  {
  }

  /** Pixels a source may fall short of a table width and still match it. */
  const Tolerance: int := 10

  /** The sentinel for "no video stream" and "narrower than every entry". */
  const NoResolution: int := -1

  predicate IsRung(h: int) {
    h == 2160 || h == 1080 || h == 720 || h == 480
  }

  /** The table's width for a height (the dictionary lookup by height). */
  function WidthOf(h: int): (w: int)
    requires IsRung(h)
    ensures exists i :: 0 <= i < |VideoResolutions| && VideoResolutions[i] == VideoResolution(h, w)
  {
    if h == 2160 then assert VideoResolutions[0].height == h; 3840
    else if h == 1080 then assert VideoResolutions[1].height == h; 1920
    else if h == 720 then assert VideoResolutions[2].height == h; 1280
    else assert VideoResolutions[3].height == h; 720
  }

  predicate Fits(width: int, r: VideoResolution) {
    width > r.width - Tolerance
  }

  /** The index of the first entry of `table` that `width` fits. */
  function FirstFit(table: seq<VideoResolution>, width: int): (r: Option<nat>)
    ensures r.Some? ==> r.value < |table| && Fits(width, table[r.value])
    ensures r.Some? ==> forall j :: 0 <= j < r.value ==> !Fits(width, table[j])
    ensures r.None? ==> forall j :: 0 <= j < |table| ==> !Fits(width, table[j])
    decreases |table|
  {
    if |table| == 0 then None
    else if Fits(width, table[0]) then Some(0)
    else match FirstFit(table[1..], width)
      case None => None
      case Some(i) => Some(i + 1)
  }

  /** The height a stream of the given width is classified as. */
  function ClassifyWidth(width: int): (r: int)
    ensures r == NoResolution <==> width <= 720 - Tolerance
    ensures r != NoResolution ==> IsRung(r)
  {
    match FirstFit(VideoResolutions, width)
    case None => NoResolution
    case Some(i) => VideoResolutions[i].height
  }

  /** The four bands of the classifier, written out. */
  lemma {:induction false} ClassifyBands(width: int)
    ensures ClassifyWidth(width) == 2160 <==> width > 3830
    ensures ClassifyWidth(width) == 1080 <==> 1910 < width <= 3830
    ensures ClassifyWidth(width) == 720 <==> 1270 < width <= 1910
    ensures ClassifyWidth(width) == 480 <==> 710 < width <= 1270
  {
    var t := VideoResolutions;
    match FirstFit(t, width)
    case None =>
      assert !Fits(width, t[3]);
    case Some(i) =>
      assert Fits(width, t[i]);
      if i > 0 { assert !Fits(width, t[0]); }
      if i > 1 { assert !Fits(width, t[1]); }
      if i > 2 { assert !Fits(width, t[2]); }
  }

  /** A wider source is never classified lower. */
  lemma ClassifyMonotone(w1: int, w2: int)
    requires w1 <= w2
    ensures ClassifyWidth(w1) <= ClassifyWidth(w2)
  {
    ClassifyBands(w1);
    ClassifyBands(w2);
  }

  /** The part of a probed stream the classifier reads. */
  datatype Stream = Stream(codecType: string, width: int)

  /** The index of the first video stream from `i` on, as `next(...)` finds it. */
  function FirstVideo(streams: seq<Stream>, i: nat): (r: Option<nat>)
    ensures r.Some? ==> i <= r.value < |streams| && streams[r.value].codecType == "video"
    ensures r.Some? ==> forall j :: i <= j < r.value ==> streams[j].codecType != "video"
    ensures r.None? ==> forall j :: i <= j < |streams| ==> streams[j].codecType != "video"
    decreases |streams| - i
  {
    if i >= |streams| then None
    else if streams[i].codecType == "video" then Some(i)
    else FirstVideo(streams, i + 1)
  }

  /** `_probe_file`: the first video stream's width, classified; the sentinel
      when the probe lists no video stream. */
  function ProbeFile(streams: seq<Stream>): (r: int)
    ensures r == NoResolution || IsRung(r)
    ensures (forall i :: 0 <= i < |streams| ==> streams[i].codecType != "video") ==> r == NoResolution
    ensures forall i :: 0 <= i < |streams| && streams[i].codecType == "video"
              && (forall j :: 0 <= j < i ==> streams[j].codecType != "video")
              ==> r == ClassifyWidth(streams[i].width)
  {
    match FirstVideo(streams, 0)
    case None => NoResolution
    case Some(i) => ClassifyWidth(streams[i].width)
  }
}
