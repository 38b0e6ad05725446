/** Task ids and the names of the files a job keeps. */
module Names {
  import opened Bytes
  import opened Disks

  function Numbered(name: bytes, n: nat): bytes
  {
    name + [DASH] + Dec(n)
  }

  /** "%s-%d" of the input file and the chunk. */
  function TaskId(fileName: bytes, chunkId: nat): bytes
  {
    Numbered(fileName, chunkId)
  }

  function SpillPath(task: bytes, i: nat): Path { Path(Spill, Numbered(task, i)) }

  function SpillIndexPath(task: bytes, i: nat): Path { Path(Index, Numbered(task, i)) }

  function InterPath(task: bytes): Path { Path(Inter, task) }

  function IndexPath(task: bytes): Path { Path(Index, task) }

  function FetchedPath(task: bytes, r: nat): Path { Path(Fetched, Numbered(task, r)) }

  function SortedPath(r: nat): Path { Path(SortedRun, Dec(r)) }

  function MergedPath(r: nat): Path { Path(MergedRun, Dec(r)) }

  function ResultPath(job: bytes, r: nat): Path { Path(Result, Numbered(job, r)) }

  lemma NumberedInjective(x: bytes, m: nat, y: bytes, n: nat)
    ensures Numbered(x, m) == Numbered(y, n) <==> x == y && m == n
  {
    DashDecInjective(x, m, y, n);
  }

  /** Distinct chunks of distinct files get distinct tasks. */
  lemma TaskIdInjective(f: bytes, c: nat, g: bytes, d: nat)
    ensures TaskId(f, c) == TaskId(g, d) <==> f == g && c == d
  {
    NumberedInjective(f, c, g, d);
  }

  /**
   * A spill's index and another task's final index are one file exactly when one input
   * is named as the other with a chunk number behind it, and the numbers agree.
   */
  lemma IndexNamesCollideExactly(f: bytes, c: nat, i: nat, g: bytes, d: nat)
    ensures SpillIndexPath(TaskId(f, c), i) == IndexPath(TaskId(g, d)) <==> g == TaskId(f, c) && d == i
  {
    NumberedInjective(TaskId(f, c), i, g, d);
  }
}
