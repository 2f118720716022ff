/**
 * Recognising the first cluster of a photo, and the scan over every
 * cluster of the dump that collects those head clusters in order.
 *
 * The classification was made for a card written by a Canon EOS 600D: the
 * camera name stands in the JPEG header at fixed offsets from the start of
 * the file, and the Exif identifier of the APP1 segment starts at offset 6.
 */
module ImageHead {
  import opened FieldDecoder
  import opened ClusterGeometry

  const CAMERA_MODEL: seq<byte> := Ascii("Canon EOS 600D")
  const EXIF: seq<byte> := Ascii("Exif")

  /** Where the three tests read and how many bytes each reads. */
  const CAMERA_MODEL_AT: nat := 0xA4
  const CAMERA_MODEL_AGAIN_AT: nat := 0x606
  const EXIF_AT: nat := 0x6
  const CAMERA_MODEL_WIDTH: nat := 19
  const EXIF_WIDTH: nat := 4

  /** All three reads of a cluster starting at `c` stay inside the dump; the
      second camera-name read reaches farthest, to c + 0x619. */
  predicate HeadReadable(dump: seq<byte>, c: nat)
  {
    c + CAMERA_MODEL_AGAIN_AT + CAMERA_MODEL_WIDTH <= |dump|
  }

  /** `cluster_is_image_head`: the camera name at 0xA4 or at 0x606, or the
      Exif identifier at 6. */
  predicate ClusterIsImageHead(dump: seq<byte>, c: nat)
    requires HeadReadable(dump, c)
  {
    || InterpretAsString(dump, c + CAMERA_MODEL_AT, CAMERA_MODEL_WIDTH) == CAMERA_MODEL
    || InterpretAsString(dump, c + CAMERA_MODEL_AGAIN_AT, CAMERA_MODEL_WIDTH) == CAMERA_MODEL
    || InterpretAsString(dump, c + EXIF_AT, EXIF_WIDTH) == EXIF
  }

  lemma LiteralFacts()
    ensures |CAMERA_MODEL| == 14 && forall i :: 0 <= i < 14 ==> CAMERA_MODEL[i] != 0
    ensures |EXIF| == 4 && forall i :: 0 <= i < 4 ==> EXIF[i] != 0
  {
  }

  /** The classification in terms of the raw bytes: the 14 letters of the
      camera name followed by a NUL (at 0xA4 or at 0x606), or the four
      letters "Exif" at 6, whatever follows them. */
  lemma ImageHeadBytes(dump: seq<byte>, c: nat)
    requires HeadReadable(dump, c)
    ensures ClusterIsImageHead(dump, c) <==>
              || (dump[c + 0xA4..c + 0xA4 + 14] == CAMERA_MODEL && dump[c + 0xA4 + 14] == 0)
              || (dump[c + 0x606..c + 0x606 + 14] == CAMERA_MODEL && dump[c + 0x606 + 14] == 0)
              || dump[c + 6..c + 10] == EXIF
  {
    LiteralFacts();
    TextMatches(dump, c + CAMERA_MODEL_AT, CAMERA_MODEL_WIDTH, CAMERA_MODEL);
    TextMatches(dump, c + CAMERA_MODEL_AGAIN_AT, CAMERA_MODEL_WIDTH, CAMERA_MODEL);
    TextMatches(dump, c + EXIF_AT, EXIF_WIDTH, EXIF);
  }

  /** The read is 19 bytes wide and the name 14 letters long, so any byte but
      NUL right after the name makes the text longer than the name: that
      camera-name test fails. */
  lemma TrailingTextDefeatsCameraMatch(dump: seq<byte>, c: nat)
    requires HeadReadable(dump, c)
    requires dump[c + 0xA4 + 14] != 0
    ensures InterpretAsString(dump, c + CAMERA_MODEL_AT, CAMERA_MODEL_WIDTH) != CAMERA_MODEL
  {
    LiteralFacts();
    TextMatches(dump, c + CAMERA_MODEL_AT, CAMERA_MODEL_WIDTH, CAMERA_MODEL);
  }

  /** Cluster `i` can be classified without reading past the end of the dump. */
  predicate HeadClusterReadable(dump: seq<byte>, clusterSize: nat, i: nat)
  {
    HeadReadable(dump, i * clusterSize)
  }

  /** Cluster `i` can be classified and is classified as a head. */
  predicate IsHeadCluster(dump: seq<byte>, clusterSize: nat, i: nat)
  {
    HeadClusterReadable(dump, clusterSize, i) && ClusterIsImageHead(dump, i * clusterSize)
  }

  /** Every one of the first `count` clusters can be classified. */
  predicate AllClustersReadable(dump: seq<byte>, clusterSize: nat, count: nat)
  {
    forall i :: 0 <= i < count ==> HeadClusterReadable(dump, clusterSize, i)
  }

  /** What the scan hands on: the head clusters in scan order, and the number
      of detections it counted (`file_count_disk_analyze`). */
  datatype HeadScan = HeadScan(heads: seq<nat>, detected: int)

  /** The disk-analyze loop of the carver's main routine. A cluster whose
      reads would run past the end of the dump (possible when a cluster is
      shorter than 0x619 bytes) stops the scan with ReadPastEnd. */
  method ScanForImageHeads(dump: seq<byte>, g: Geometry) returns (r: Result<HeadScan>)
    ensures r.Ok? <==> AllClustersReadable(dump, g.clusterSize, g.totalClusters)
    ensures r.Err? ==> r.failure.ReadPastEnd?
    ensures r.Ok? ==> r.value.detected == |r.value.heads|
    ensures r.Ok? ==> forall j, k :: 0 <= j < k < |r.value.heads| ==> r.value.heads[j] < r.value.heads[k]
    ensures r.Ok? ==> forall k :: 0 <= k < |r.value.heads| ==> r.value.heads[k] < g.totalClusters
    ensures r.Ok? ==> forall i :: 0 <= i < g.totalClusters ==>
                        (i in r.value.heads <==> IsHeadCluster(dump, g.clusterSize, i))
  {
    var heads: seq<nat> := [];
    var detected := 0;
    var iter: nat := 0;
    while iter < g.totalClusters
      invariant iter <= g.totalClusters
      invariant detected == |heads|
      invariant forall i :: 0 <= i < iter ==> HeadClusterReadable(dump, g.clusterSize, i)
      invariant forall j, k :: 0 <= j < k < |heads| ==> heads[j] < heads[k]
      invariant forall k :: 0 <= k < |heads| ==> heads[k] < iter
      invariant forall i :: 0 <= i < iter ==> (i in heads <==> IsHeadCluster(dump, g.clusterSize, i))
    {
      var clusterOffset := iter * g.clusterSize;
      if !HeadReadable(dump, clusterOffset) {
        assert !HeadClusterReadable(dump, g.clusterSize, iter);
        return Err(ReadPastEnd(clusterOffset));
      }
      if ClusterIsImageHead(dump, clusterOffset) {
        heads := heads + [iter];
        detected := detected + 1;
      }
      iter := iter + 1;
    }
    r := Ok(HeadScan(heads, detected));
  }
}
