/** What a reduce task fetches and merges, on plain values. */
module ReduceSide {
  import opened Bytes
  import opened RecordCodec
  import opened Merging
  import opened IndexFiles
  import opened Disks
  import opened Names
  import opened ExternalSorting

  /** The bytes of partition r a finished map task left on a disk; none when its files are missing. */
  function RegionAt(files: Files, task: bytes, r: nat): bytes
  {
    if IndexPath(task) in files && InterPath(task) in files
    then Region(files[InterPath(task)], files[IndexPath(task)], r)
    else []
  }

  /** The records each task contributes, task by task. */
  function RegionStreams(regions: map<bytes, bytes>, order: seq<bytes>): (streams: seq<seq<KeyValue>>)
    requires forall id :: id in order ==> id in regions
    ensures |streams| == |order|
    ensures forall i :: 0 <= i < |order| ==> streams[i] == Records(regions[order[i]])
  {
    seq(|order|, i requires 0 <= i < |order| => Records(regions[order[i]]))
  }

  predicate RegionsWellFormed(regions: map<bytes, bytes>)
  {
    forall id :: id in regions ==> AllWellFormed(Records(regions[id]))
  }

  /** The fetched files stand for the regions of the tasks dealt with, on a disk otherwise as before. */
  ghost predicate FetchedSoFar(before: Files, files: Files, regions: map<bytes, bytes>, r: nat,
                               order: seq<bytes>, fetchedFiles: seq<Path>)
  {
    && (forall id :: id in order ==> id in regions)
    && (forall p :: p in fetchedFiles ==> p in files && exists id :: id in order && p == FetchedPath(id, r))
    && (forall p :: p !in fetchedFiles ==> (p in before <==> p in files) && (p in before ==> before[p] == files[p]))
    && StandsFor(StreamsAt(files, fetchedFiles), RegionStreams(regions, order))
    && (RegionsWellFormed(regions) ==> InputsWellFormed(files, fetchedFiles))
  }

  lemma NothingFetched(files: Files, regions: map<bytes, bytes>, r: nat)
    ensures FetchedSoFar(files, files, regions, r, [], [])
  {
  }

  lemma RegionStreamsAppend(regions: map<bytes, bytes>, order: seq<bytes>, id: bytes)
    requires id in regions && forall x :: x in order ==> x in regions
    ensures RegionStreams(regions, order + [id]) == RegionStreams(regions, order) + [Records(regions[id])]
  {
  }

  /** A task with an empty region needs no file. */
  lemma FetchedNone(before: Files, files: Files, regions: map<bytes, bytes>, r: nat,
                    order: seq<bytes>, fetchedFiles: seq<Path>, id: bytes)
    requires FetchedSoFar(before, files, regions, r, order, fetchedFiles)
    requires id in regions && regions[id] == []
    ensures FetchedSoFar(before, files, regions, r, order + [id], fetchedFiles)
  {
    hide StreamsAt, RegionStreams, InputsWellFormed, RegionsWellFormed, StandsFor, FetchedPath;
    RegionStreamsAppend(regions, order, id);
    NoRecords();
    StandsForAppend(StreamsAt(files, fetchedFiles), RegionStreams(regions, order), Records(regions[id]));
  }

  lemma NoRecords()
    ensures Records([]) == []
  {
  }

  lemma FetchedOne(before: Files, files: Files, regions: map<bytes, bytes>, r: nat,
                   order: seq<bytes>, fetchedFiles: seq<Path>, id: bytes)
    requires FetchedSoFar(before, files, regions, r, order, fetchedFiles)
    requires id in regions && id !in order
    ensures FetchedSoFar(before, files[FetchedPath(id, r) := regions[id]], regions, r,
                         order + [id], fetchedFiles + [FetchedPath(id, r)])
  {
    hide StandsFor, Records, AllWellFormed, FetchedPath;
    var path := FetchedPath(id, r);
    var more := files[path := regions[id]];
    forall p | p in fetchedFiles
      ensures p != path
    {
      var x :| x in order && p == FetchedPath(x, r);
      FetchedPathInjective(x, id, r);
    }
    RegionStreamsAppend(regions, order, id);
    StandsForAppend(StreamsAt(files, fetchedFiles), RegionStreams(regions, order), Records(regions[id]));
    forall i | 0 <= i < |fetchedFiles|
      ensures RecordsAt(more, fetchedFiles[i]) == RecordsAt(files, fetchedFiles[i])
    {
    }
    assert RecordsAt(more, path) == Records(regions[id]);
    assert StreamsAt(more, fetchedFiles + [path]) == StreamsAt(files, fetchedFiles) + [Records(regions[id])];
    forall p | p in fetchedFiles + [path]
      ensures p in more && exists x :: x in order + [id] && p == FetchedPath(x, r)
    {
      if p == path {
        assert id in order + [id];
      } else {
        var x :| x in order && p == FetchedPath(x, r);
        assert x in order + [id];
      }
    }
  }

  lemma FetchedPathInjective(x: bytes, y: bytes, r: nat)
    ensures FetchedPath(x, r) == FetchedPath(y, r) <==> x == y
  {
    NumberedInjective(x, r, y, r);
  }

  lemma RegionElsewhere(before: Files, files: Files, task: bytes, r: nat)
    requires forall p: Path :: p.kind == Inter || p.kind == Index ==>
               (p in before <==> p in files) && (p in before ==> before[p] == files[p])
    ensures RegionAt(before, task, r) == RegionAt(files, task, r)
  {
  }
}
