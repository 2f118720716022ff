/**
 * Cluster geometry derived from the accepted volume ID sector: the size of
 * a cluster in bytes and the number of whole clusters the dump holds.
 */
module ClusterGeometry {
  import opened VolumeId

  datatype Geometry = Geometry(clusterSize: nat, totalClusters: nat)

  /** Cluster size is bytes per sector times sectors per cluster; the
      cluster count is the dump length divided by it, rounded down, so a
      partial cluster at the end of the dump is not counted. */
  function ComputeGeometry(bytesPerSector: int, sectorsPerCluster: int, fileSize: nat): (g: Geometry)
    requires bytesPerSector == SECTOR_SIZE
    requires sectorsPerCluster > 0
    ensures g.clusterSize == SECTOR_SIZE * sectorsPerCluster
    ensures g.totalClusters * g.clusterSize <= fileSize < (g.totalClusters + 1) * g.clusterSize
  {
    var clusterSize := bytesPerSector * sectorsPerCluster;
    Geometry(clusterSize, fileSize / clusterSize)
  }

  lemma MulMonotonic(a: nat, b: nat, c: nat)
    requires a <= b
    ensures a * c <= b * c
  {
  }

  /** A whole cluster before the end of the dump: the cluster count bounds
      every cluster's bytes. */
  lemma ClusterInsideDump(g: Geometry, fileSize: nat, i: nat)
    requires g.totalClusters * g.clusterSize <= fileSize
    requires i < g.totalClusters
    ensures (i + 1) * g.clusterSize <= fileSize
  {
    MulMonotonic(i + 1, g.totalClusters, g.clusterSize);
  }
}
