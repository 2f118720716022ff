/**
 * Extraction of the cluster runs between consecutive head clusters.
 *
 * The output directory is modelled by an OutputSink: the files written so
 * far, in the order they were created (file `k` is the carver's
 * `file_k.jpg`), and the counter that numbers them.
 */
module Extraction {
  import opened FieldDecoder
  import opened ClusterGeometry

  /** The bytes of clusters `a` up to, not including, `b`; nothing when the
      range is empty. */
  function ClusterRun(dump: seq<byte>, clusterSize: nat, a: nat, b: nat): seq<byte>
    requires a < b ==> b * clusterSize <= |dump|
  {
    if a < b then
      MulMonotonic(a, b, clusterSize);
      dump[a * clusterSize..b * clusterSize]
    else
      []
  }

  /** One file per head but the last: file `k` holds the run from head `k`
      to head `k + 1`. */
  function Runs(dump: seq<byte>, clusterSize: nat, heads: seq<nat>): seq<seq<byte>>
    requires forall k :: 0 <= k < |heads| ==> heads[k] * clusterSize <= |dump|
  {
    if |heads| <= 1 then []
    else [ClusterRun(dump, clusterSize, heads[0], heads[1])] + Runs(dump, clusterSize, heads[1..])
  }

  /** The concatenation of a sequence of files. */
  function Concat(files: seq<seq<byte>>): seq<byte>
  {
    if |files| == 0 then [] else files[0] + Concat(files[1..])
  }

  predicate StrictlyIncreasing(heads: seq<nat>)
  {
    forall j, k :: 0 <= j < k < |heads| ==> heads[j] < heads[k]
  }

  /** The last head has no successor: `m` heads give `m - 1` files, and
      file `k` is the run between heads `k` and `k + 1`. */
  lemma {:induction false} RunsShape(dump: seq<byte>, clusterSize: nat, heads: seq<nat>)
    requires forall k :: 0 <= k < |heads| ==> heads[k] * clusterSize <= |dump|
    ensures |Runs(dump, clusterSize, heads)| == if |heads| == 0 then 0 else |heads| - 1
    ensures forall k :: 0 <= k < |heads| - 1 ==>
              Runs(dump, clusterSize, heads)[k] == ClusterRun(dump, clusterSize, heads[k], heads[k + 1])
  {
    if |heads| > 1 {
      RunsShape(dump, clusterSize, heads[1..]);
    }
  }

  /** A further head adds exactly one file, the run from the old last head to it. */
  lemma {:induction false} RunsSnoc(dump: seq<byte>, clusterSize: nat, heads: seq<nat>, next: nat)
    requires |heads| > 0
    requires forall k :: 0 <= k < |heads| ==> heads[k] * clusterSize <= |dump|
    requires next * clusterSize <= |dump|
    ensures forall k :: 0 <= k < |heads + [next]| ==> (heads + [next])[k] * clusterSize <= |dump|
    ensures Runs(dump, clusterSize, heads + [next]) ==
              Runs(dump, clusterSize, heads) + [ClusterRun(dump, clusterSize, heads[|heads| - 1], next)]
  {
    assert forall k :: 0 <= k < |heads + [next]| ==> (heads + [next])[k] * clusterSize <= |dump| by {
      forall k | 0 <= k < |heads + [next]| ensures (heads + [next])[k] * clusterSize <= |dump| {
        if k < |heads| { assert (heads + [next])[k] == heads[k]; }
      }
    }
    if |heads| > 1 {
      assert (heads + [next])[1..] == heads[1..] + [next];
      RunsSnoc(dump, clusterSize, heads[1..], next);
    }
  }

  /** Between two heads `a < b` the file has (b - a) * clusterSize bytes, and
      its byte `j` is byte a * clusterSize + j of the dump. */
  lemma ClusterRunContents(dump: seq<byte>, clusterSize: nat, a: nat, b: nat)
    requires a < b && b * clusterSize <= |dump|
    ensures |ClusterRun(dump, clusterSize, a, b)| == (b - a) * clusterSize
    ensures forall j :: 0 <= j < |ClusterRun(dump, clusterSize, a, b)| ==>
              ClusterRun(dump, clusterSize, a, b)[j] == dump[a * clusterSize + j]
  {
    MulMonotonic(a, b, clusterSize);
    assert b * clusterSize - a * clusterSize == (b - a) * clusterSize;
  }

  /** One more cluster at the end of a run. */
  lemma ClusterRunExtend(dump: seq<byte>, clusterSize: nat, a: nat, b: nat)
    requires a <= b && (b + 1) * clusterSize <= |dump|
    ensures b * clusterSize + clusterSize <= |dump|
    ensures ClusterRun(dump, clusterSize, a, b + 1) ==
              ClusterRun(dump, clusterSize, a, b) + dump[b * clusterSize..b * clusterSize + clusterSize]
  {
    assert (b + 1) * clusterSize == b * clusterSize + clusterSize;
    MulMonotonic(a, b, clusterSize);
    if a < b {
      ClusterRunSplit(dump, a * clusterSize, b * clusterSize, b * clusterSize + clusterSize);
    }
  }

  lemma ClusterRunSplit(dump: seq<byte>, a: nat, m: nat, z: nat)
    requires a <= m <= z <= |dump|
    ensures dump[a..m] + dump[m..z] == dump[a..z]
  {
  }

  lemma StrictlyIncreasingTail(heads: seq<nat>)
    requires |heads| > 0 && StrictlyIncreasing(heads)
    ensures StrictlyIncreasing(heads[1..])
  {
    var rest := heads[1..];
    forall j, k | 0 <= j < k < |rest| ensures rest[j] < rest[k] {
      assert rest[j] == heads[j + 1] && rest[k] == heads[k + 1];
    }
  }

  /** The runs of a list of two or more heads: the first run, then the runs
      of the rest. */
  lemma ConcatRunsCons(dump: seq<byte>, clusterSize: nat, heads: seq<nat>)
    requires |heads| > 1
    requires forall k :: 0 <= k < |heads| ==> heads[k] * clusterSize <= |dump|
    ensures Concat(Runs(dump, clusterSize, heads)) ==
              ClusterRun(dump, clusterSize, heads[0], heads[1]) + Concat(Runs(dump, clusterSize, heads[1..]))
  {
    var runs := Runs(dump, clusterSize, heads);
    assert runs[0] == ClusterRun(dump, clusterSize, heads[0], heads[1]);
    assert runs[1..] == Runs(dump, clusterSize, heads[1..]);
  }

  /** For increasing heads the files are consecutive pieces of the dump:
      laid end to end they give exactly the bytes from the first head to the
      last one, with nothing lost or repeated. */
  lemma {:induction false} RunsTileSpan(dump: seq<byte>, clusterSize: nat, heads: seq<nat>)
    requires |heads| > 0 && StrictlyIncreasing(heads)
    requires forall k :: 0 <= k < |heads| ==> heads[k] * clusterSize <= |dump|
    ensures heads[0] * clusterSize <= heads[|heads| - 1] * clusterSize
    ensures Concat(Runs(dump, clusterSize, heads)) ==
              dump[heads[0] * clusterSize..heads[|heads| - 1] * clusterSize]
  {
    if |heads| > 1 {
      var rest := heads[1..];
      StrictlyIncreasingTail(heads);
      RunsTileSpan(dump, clusterSize, rest);
      assert rest[0] == heads[1] && rest[|rest| - 1] == heads[|heads| - 1];
      ConcatRunsCons(dump, clusterSize, heads);
      MulMonotonic(heads[0], heads[1], clusterSize);
      ClusterRunSplit(dump, heads[0] * clusterSize, heads[1] * clusterSize, heads[|heads| - 1] * clusterSize);
    }
  }

  class OutputSink {
    /** The files written, in order: files[k] is `file_k.jpg`. */
    var files: seq<seq<byte>>
    /** The global `file_count`: the number of the next file. */
    var fileCount: int

    ghost predicate Valid()
      reads this
    {
      fileCount == |files|
    }

    constructor ()
      ensures Valid() && files == [] && fileCount == 0
    {
      files := [];
      fileCount := 0;
    }

    /** `write_clusters_to_file`: takes the next file number, creates that
        file, then reads clusters cStart up to cEnd one at a time into a
        buffer of one cluster and appends the buffer to the file. */
    method WriteClustersToFile(dump: seq<byte>, clusterSize: nat, cStart: nat, cEnd: nat)
      requires Valid()
      requires cStart < cEnd ==> cEnd * clusterSize <= |dump|
      modifies this
      ensures Valid()
      ensures fileCount == old(fileCount) + 1
      ensures files == old(files) + [ClusterRun(dump, clusterSize, cStart, cEnd)]
    {
      fileCount := fileCount + 1;
      var buffer := new byte[clusterSize];
      files := files + [[]];
      var clusterIter := cStart;
      while clusterIter < cEnd
        invariant cStart <= clusterIter && (cStart < cEnd ==> clusterIter <= cEnd)
        invariant cEnd <= cStart ==> clusterIter == cStart
        invariant cStart < clusterIter ==> clusterIter * clusterSize <= |dump|
        invariant fileCount == old(fileCount) + 1
        invariant files == old(files) + [ClusterRun(dump, clusterSize, cStart, clusterIter)]
      {
        MulMonotonic(clusterIter + 1, cEnd, clusterSize);
        ClusterRunExtend(dump, clusterSize, cStart, clusterIter);
        var clusterHeadOffset := clusterIter * clusterSize;
        forall j | 0 <= j < clusterSize {
          buffer[j] := dump[clusterHeadOffset + j];
        }
        assert buffer[..] == dump[clusterHeadOffset..clusterHeadOffset + clusterSize];
        var last := |files| - 1;
        files := files[..last] + [files[last] + buffer[..]];
        clusterIter := clusterIter + 1;
      }
    }

    /** `retrieve_image`: the run from head `k` to head `k + 1`; nothing for
        the last head, which has no successor. */
    method RetrieveImage(dump: seq<byte>, clusterSize: nat, heads: seq<nat>, k: nat)
      requires Valid()
      requires k < |heads|
      requires forall i :: 0 <= i < |heads| ==> heads[i] * clusterSize <= |dump|
      modifies this
      ensures Valid()
      ensures k == |heads| - 1 ==> files == old(files) && fileCount == old(fileCount)
      ensures k < |heads| - 1 ==>
                && fileCount == old(fileCount) + 1
                && files == old(files) + [ClusterRun(dump, clusterSize, heads[k], heads[k + 1])]
    {
      if k == |heads| - 1 {
        return;
      }
      WriteClustersToFile(dump, clusterSize, heads[k], heads[k + 1]);
    }

    /** The retrieval loop of the carver's main routine: every head in turn. */
    method RetrieveAll(dump: seq<byte>, clusterSize: nat, heads: seq<nat>)
      requires Valid()
      requires forall i :: 0 <= i < |heads| ==> heads[i] * clusterSize <= |dump|
      modifies this
      ensures Valid()
      ensures files == old(files) + Runs(dump, clusterSize, heads)
    {
      for iter := 0 to |heads|
        invariant Valid()
        invariant files == old(files) + Runs(dump, clusterSize, heads[..if iter < |heads| then iter + 1 else iter])
      {
        RetrieveImage(dump, clusterSize, heads, iter);
        if iter < |heads| - 1 {
          assert heads[..iter + 2] == heads[..iter + 1] + [heads[iter + 1]];
          RunsSnoc(dump, clusterSize, heads[..iter + 1], heads[iter + 1]);
        }
      }
      assert heads[..|heads|] == heads;
    }
  }
}
