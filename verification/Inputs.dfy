/** The tasks of a job's input files. */
module Inputs {
  import opened Bytes
  import opened Lines
  import opened RecordCodec
  import opened Names
  import opened Chunking
  import opened MapSide
  import opened JobSide

  datatype Input = Input(name: bytes, text: bytes)

  function ChunkTasks(name: bytes, chunks: seq<bytes>): (tasks: seq<Task>)
    ensures |tasks| == |chunks|
    ensures forall i :: 0 <= i < |chunks| ==> tasks[i] == Task(TaskId(name, i), chunks[i])
  {
    seq(|chunks|, i requires 0 <= i < |chunks| => Task(TaskId(name, i), chunks[i]))
  }

  function TaskList(inputs: seq<Input>, max: nat): seq<Task>
    requires max > 0
  {
    if inputs == [] then []
    else
      var last := inputs[|inputs| - 1];
      TaskList(inputs[..|inputs| - 1], max) + ChunkTasks(last.name, TextChunks(last.text, 0, max))
  }

  /** All the pairs mapped from the inputs, file by file and line by line. */
  function EmittedFrom(inputs: seq<Input>, mapper: Mapper): seq<KeyValue>
  {
    if inputs == [] then []
    else EmittedFrom(inputs[..|inputs| - 1], mapper) + Emitted(inputs[|inputs| - 1].text, mapper)
  }

  /** Input names are distinct, and none is another with a dash and a number behind it. */
  ghost predicate NamesApart(inputs: seq<Input>)
  {
    && (forall i, j :: 0 <= i < j < |inputs| ==> inputs[i].name != inputs[j].name)
    && (forall i, j, n: nat :: 0 <= i < |inputs| && 0 <= j < |inputs| ==> inputs[i].name != Numbered(inputs[j].name, n))
  }

  ghost predicate IsTaskOf(id: bytes, inputs: seq<Input>)
  {
    exists k, c: nat :: 0 <= k < |inputs| && id == TaskId(inputs[k].name, c)
  }

  lemma {:induction false} TasksNamed(inputs: seq<Input>, max: nat)
    requires max > 0 && NamesApart(inputs)
    ensures forall i :: 0 <= i < |TaskList(inputs, max)| ==> IsTaskOf(TaskList(inputs, max)[i].id, inputs)
    ensures forall i, j :: 0 <= i < j < |TaskList(inputs, max)| ==>
              TaskList(inputs, max)[i].id != TaskList(inputs, max)[j].id
  {
    hide TextChunks, TaskId, Numbered;
    if inputs != [] {
      var init, last := inputs[..|inputs| - 1], inputs[|inputs| - 1];
      TasksNamed(init, max);
      var before, added := TaskList(init, max), ChunkTasks(last.name, TextChunks(last.text, 0, max));
      var tasks := TaskList(inputs, max);
      assert tasks == before + added;
      forall i | 0 <= i < |before|
        ensures IsTaskOf(tasks[i].id, inputs)
        ensures forall j :: 0 <= j < |added| ==> before[i].id != added[j].id
      {
        var k, c: nat :| 0 <= k < |init| && before[i].id == TaskId(init[k].name, c);
        assert inputs[k].name == init[k].name;
        forall j | 0 <= j < |added|
          ensures before[i].id != added[j].id
        {
          TaskIdInjective(init[k].name, c, last.name, j);
        }
      }
      forall i | 0 <= i < |added|
        ensures IsTaskOf(added[i].id, inputs)
        ensures forall j :: i < j < |added| ==> added[i].id != added[j].id
      {
        assert inputs[|inputs| - 1].name == last.name;
        forall j | i < j < |added|
          ensures added[i].id != added[j].id
        {
          TaskIdInjective(last.name, i, last.name, j);
        }
      }
    }
  }

  /** Input names apart keep all the tasks' files apart. */
  lemma TaskListApart(inputs: seq<Input>, max: nat)
    requires max > 0 && NamesApart(inputs)
    ensures TasksApart(TaskList(inputs, max))
  {
    hide TaskList, TaskId, Numbered;
    TasksNamed(inputs, max);
    var tasks := TaskList(inputs, max);
    forall i, j, n: nat | 0 <= i < |tasks| && 0 <= j < |tasks|
      ensures tasks[i].id != Numbered(tasks[j].id, n)
    {
      var k, c: nat :| 0 <= k < |inputs| && tasks[i].id == TaskId(inputs[k].name, c);
      var l, d: nat :| 0 <= l < |inputs| && tasks[j].id == TaskId(inputs[l].name, d);
      TaskIdIsNumbered(inputs[k].name, c);
      TaskIdIsNumbered(inputs[l].name, d);
      NumberedInjective(inputs[k].name, c, tasks[j].id, n);
    }
  }

  lemma TaskIdIsNumbered(name: bytes, c: nat)
    ensures TaskId(name, c) == Numbered(name, c)
  {
  }

  // ---------- Chunking changes nothing that is emitted ----------

  lemma {:induction false} MapLinesConcat(a: seq<bytes>, b: seq<bytes>, mapper: Mapper)
    ensures MapLines(a + b, mapper) == MapLines(a, mapper) + MapLines(b, mapper)
  {
    if b == [] {
      assert a + b == a;
    } else {
      var init, last := b[..|b| - 1], b[|b| - 1];
      assert a + b == (a + init) + [last] && b == init + [last];
      MapLinesAppend(a + init, last, mapper);
      MapLinesAppend(init, last, mapper);
      MapLinesConcat(a, init, mapper);
    }
  }

  lemma EmittedConcat(a: bytes, b: bytes, mapper: Mapper)
    requires WholeLines(a) && LinesFit(a + b, MAX_TOKEN)
    ensures Emitted(a + b, mapper) == Emitted(a, mapper) + Emitted(b, mapper)
    ensures LinesFit(a, MAX_TOKEN)
  {
    hide Scanned, RawLines, WholeLines, MapLines, LinesFit;
    LinesFitConcat(a, b, MAX_TOKEN);
    ScannedAllExactly(a + b, MAX_TOKEN);
    ScannedAllExactly(a, MAX_TOKEN);
    ScannedAllExactly(b, MAX_TOKEN);
    RawLinesConcat(a, b);
    DropCRsConcat(RawLines(a), RawLines(b));
    MapLinesConcat(Scanned(a, MAX_TOKEN), Scanned(b, MAX_TOKEN), mapper);
  }

  lemma NothingEmitted(mapper: Mapper)
    ensures Emitted([], mapper) == []
  {
  }

  lemma {:induction false} ChunksEmit(name: bytes, chunks: seq<bytes>, mapper: Mapper)
    requires LineAligned(chunks) && LinesFit(Concat(chunks), MAX_TOKEN)
    ensures Flatten(EmittedBy(ChunkTasks(name, chunks), mapper)) == Emitted(Concat(chunks), mapper)
  {
    hide Emitted, LinesFit, TaskId;
    if chunks == [] {
      NothingEmitted(mapper);
    } else {
      var n := |chunks| - 1;
      var init := chunks[..n];
      assert forall i :: 0 <= i < |init| ==> WholeLines(init[i]);
      ConcatWhole(init);
      EmittedConcat(Concat(init), chunks[n], mapper);
      ChunksEmit(name, init, mapper);
      assert EmittedBy(ChunkTasks(name, chunks), mapper)[..n] == EmittedBy(ChunkTasks(name, init), mapper);
    }
  }

  lemma FlattenLast(a: seq<seq<KeyValue>>, last: seq<KeyValue>)
    ensures Flatten(a + [last]) == Flatten(a) + last
  {
    assert (a + [last])[..|a|] == a;
  }

  lemma {:induction false} FlattenConcat(a: seq<seq<KeyValue>>, b: seq<seq<KeyValue>>)
    ensures Flatten(a + b) == Flatten(a) + Flatten(b)
  {
    hide *;
    if b == [] {
      assert a + b == a;
      FlattenNothing();
    } else {
      var init, last := b[..|b| - 1], b[|b| - 1];
      FlattenConcat(a, init);
      FlattenLast(init, last);
      FlattenLast(a + init, last);
      assert b == init + [last] && a + b == a + init + [last];
      assert Flatten(a) + Flatten(init) + last == Flatten(a) + (Flatten(init) + last);
    }
  }

  lemma FlattenNothing()
    ensures Flatten([]) == []
  {
  }

  /** Mapping chunk by chunk emits what mapping the whole files emits. */
  lemma {:induction false} TaskListEmits(inputs: seq<Input>, max: nat, mapper: Mapper)
    requires max > 0
    requires forall i :: 0 <= i < |inputs| ==> LinesFit(inputs[i].text, MAX_TOKEN)
    ensures Flatten(EmittedBy(TaskList(inputs, max), mapper)) == EmittedFrom(inputs, mapper)
  {
    hide *;
    if inputs == [] {
      NoTasksEmit(max, mapper);
    } else {
      var init, last := inputs[..|inputs| - 1], inputs[|inputs| - 1];
      TaskListEmits(init, max, mapper);
      var before, added := TaskList(init, max), ChunkTasks(last.name, TextChunks(last.text, 0, max));
      LastInput(inputs, max, mapper);
      TextChunkLines(last.text, max);
      TextChunksAligned(last.text, 0, max);
      ChunksEmit(last.name, TextChunks(last.text, 0, max), mapper);
      EmittedByConcat(before, added, mapper);
      FlattenConcat(EmittedBy(before, mapper), EmittedBy(added, mapper));
    }
  }

  lemma NoTasksEmit(max: nat, mapper: Mapper)
    requires max > 0
    ensures Flatten(EmittedBy(TaskList([], max), mapper)) == EmittedFrom([], mapper)
  {
  }

  lemma LastInput(inputs: seq<Input>, max: nat, mapper: Mapper)
    requires max > 0 && inputs != []
    ensures var init, last := inputs[..|inputs| - 1], inputs[|inputs| - 1];
            && TaskList(inputs, max) == TaskList(init, max) + ChunkTasks(last.name, TextChunks(last.text, 0, max))
            && EmittedFrom(inputs, mapper) == EmittedFrom(init, mapper) + Emitted(last.text, mapper)
  {
    hide ChunkTasks, TextChunks, Emitted;
  }

  lemma EmittedByConcat(a: seq<Task>, b: seq<Task>, mapper: Mapper)
    ensures EmittedBy(a + b, mapper) == EmittedBy(a, mapper) + EmittedBy(b, mapper)
  {
    hide Emitted;
  }
}
