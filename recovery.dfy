/**
 * The carver's main routine once the dump is in hand: locate the volume ID
 * sector, derive the cluster geometry from it, scan every cluster for photo
 * heads, and write out the run between each head and the next.
 */
module Recovery {
  import opened FieldDecoder
  import opened VolumeId
  import opened ClusterGeometry
  import opened ImageHead
  import opened Extraction

  /** How a run that did not stop on a failed read ends: no volume ID sector
      was found (the carver returns quietly), or the photos were extracted
      with this sector, geometry and list of head clusters. */
  datatype Report =
    | NoVolumeId
    | Recovered(volumeSector: nat, geometry: Geometry, heads: seq<nat>)

  /** The sectors-per-cluster field of sector `s`: its byte at 0x0D. */
  function SectorsPerClusterAt(dump: seq<byte>, s: nat): (spc: int)
    requires SectorReadable(dump, s * SECTOR_SIZE)
    ensures spc == dump[s * SECTOR_SIZE + 0x0D]
  {
    var off := s * SECTOR_SIZE + 0x0D;
    assert dump[off..off + 1][1..] == [];
    IntAt(dump, off, 1)
  }

  /** The geometry the carver derives from sector `s`, when its
      sectors-per-cluster field is not zero. */
  function GeometryAt(dump: seq<byte>, s: nat): Geometry
    requires SectorReadable(dump, s * SECTOR_SIZE) && SectorsPerClusterAt(dump, s) > 0
  {
    ComputeGeometry(SECTOR_SIZE, SectorsPerClusterAt(dump, s), |dump|)
  }

  /** The first accepted sector has a nonzero sectors-per-cluster field, and
      every cluster of the geometry it gives can be classified. */
  predicate Recoverable(dump: seq<byte>, s: nat)
  {
    && FirstVolumeId(dump, s)
    && SectorsPerClusterAt(dump, s) > 0
    && AllClustersReadable(dump, GeometryAt(dump, s).clusterSize, GeometryAt(dump, s).totalClusters)
  }

  method RecoverImages(dump: seq<byte>, sink: OutputSink) returns (r: Result<Report>)
    requires sink.Valid()
    modifies sink
    ensures sink.Valid()
    ensures r == Ok(NoVolumeId) <==>
              |dump| % SECTOR_SIZE == 0 &&
              forall t :: 0 <= t < |dump| / SECTOR_SIZE ==> !VolumeIdAt(dump, t)
    ensures (r.Ok? && r.value.Recovered?) <==> exists s: nat :: Recoverable(dump, s)
    ensures r.Ok? && r.value.Recovered? ==>
              var s, g, heads := r.value.volumeSector, r.value.geometry, r.value.heads;
              && Recoverable(dump, s)
              && g == GeometryAt(dump, s)
              && g.clusterSize == SECTOR_SIZE * dump[s * SECTOR_SIZE + 0x0D]
              && g.totalClusters * g.clusterSize <= |dump| < (g.totalClusters + 1) * g.clusterSize
              && StrictlyIncreasing(heads)
              && (forall k :: 0 <= k < |heads| ==> heads[k] < g.totalClusters)
              && (forall i :: 0 <= i < g.totalClusters ==> (i in heads <==> IsHeadCluster(dump, g.clusterSize, i)))
              && (forall k :: 0 <= k < |heads| ==> heads[k] * g.clusterSize <= |dump|)
              && sink.files == old(sink.files) + Runs(dump, g.clusterSize, heads)
    ensures r.Err? && r.failure == ZeroClusterSize ==>
              exists s: nat :: FirstVolumeId(dump, s) && SectorsPerClusterAt(dump, s) == 0
    ensures r.Err? && r.failure.ReadPastEnd? ==>
              || (&& |dump| % SECTOR_SIZE != 0
                  && forall t :: 0 <= t < |dump| / SECTOR_SIZE ==> !VolumeIdAt(dump, t))
              || exists s: nat ::
                   && FirstVolumeId(dump, s)
                   && SectorsPerClusterAt(dump, s) > 0
                   && !AllClustersReadable(dump, GeometryAt(dump, s).clusterSize, GeometryAt(dump, s).totalClusters)
    ensures !(r.Ok? && r.value.Recovered?) ==>
              sink.files == old(sink.files) && sink.fileCount == old(sink.fileCount)
  {
    var found := FindVolumeIdSector(dump);
    if found.Err? || found.value == -1 {
      forall s: nat | SectorReadable(dump, s * SECTOR_SIZE) ensures !VolumeIdAt(dump, s) {
        WholeSectorsRejected(dump, s);
      }
      if found.Err? {
        return Err(found.failure);
      }
      return Ok(NoVolumeId);
    }
    var volumeSectorId: nat := found.value;
    assert FirstVolumeId(dump, volumeSectorId);
    forall s: nat | FirstVolumeId(dump, s) ensures s == volumeSectorId {
      FirstVolumeIdUnique(dump, s, volumeSectorId);
    }
    var base := volumeSectorId * SECTOR_SIZE;
    var bytesPerSector := InterpretAsInt(dump, base + 0x0B, 2);
    var sectorsPerCluster := InterpretAsInt(dump, base + 0x0D, 1);
    assert bytesPerSector == SECTOR_SIZE;
    if sectorsPerCluster == 0 {
      return Err(ZeroClusterSize);
    }
    var g := ComputeGeometry(bytesPerSector, sectorsPerCluster, |dump|);
    assert g == GeometryAt(dump, volumeSectorId);
    var scan := ScanForImageHeads(dump, g);
    if scan.Err? {
      return Err(scan.failure);
    }
    assert Recoverable(dump, volumeSectorId);
    var heads := scan.value.heads;
    forall k | 0 <= k < |heads| ensures heads[k] * g.clusterSize <= |dump| {
      ClusterInsideDump(g, |dump|, heads[k]);
      MulMonotonic(heads[k], heads[k] + 1, g.clusterSize);
    }
    sink.RetrieveAll(dump, g.clusterSize, heads);
    r := Ok(Recovered(volumeSectorId, g, heads));
  }
}
