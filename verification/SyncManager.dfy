/** The driver: the planned tasks are submitted to the pool in order, and the driver waits for the
    counter to reach zero. A task's effect on the file system is taken to happen when it ends. */
module SyncManager {
  import opened Bytes
  import opened FileTree
  import opened Planner
  import opened Conflict
  import opened Listing
  import opened LocalSync
  import Pool = ThreadPool

  /** The tasks in the order in which the pool ends them; the pool numbers them as they were submitted. */
  function InOrder(tasks: seq<Task>, ended: seq<nat>): (r: seq<Task>)
    requires forall n :: n in ended ==> n < |tasks|
    ensures |r| == |ended|
  {
    seq(|ended|, i requires 0 <= i < |ended| => assert ended[i] in ended; tasks[ended[i]])
  }

  lemma InOrderIsPermutation(tasks: seq<Task>, ended: seq<nat>)
    requires NoRepeats(tasks) && Pool.NoneTwice(ended)
    requires forall n: nat :: n in ended <==> n < |tasks|
    ensures NoRepeats(InOrder(tasks, ended)) && AsSet(InOrder(tasks, ended)) == AsSet(tasks)
  {
    var r := InOrder(tasks, ended);
    forall i, j | 0 <= i < j < |r|
      ensures r[i] != r[j]
    {
      assert ended[i] in ended && ended[j] in ended;
      assert ended[i] != ended[j];
    }
    forall k | k in tasks
      ensures k in r
    {
      var n :| 0 <= n < |tasks| && tasks[n] == k;
      assert n in ended;
      var i :| 0 <= i < |ended| && ended[i] == n;
      assert r[i] == k;
    }
    forall k | k in r
      ensures k in tasks
    {
      var i :| 0 <= i < |r| && r[i] == k;
      assert ended[i] in ended;
    }
  }

  /** When waitForCompletion has read zero after the driver submitted all due tasks, then in every run of
      the pool, with any number of workers, every task has been executed exactly once, all of them
      succeeded, and every source path is matched by its image. */
  lemma WaitedSyncMatches(t: Tree, a: Attributes, srcDir: Path, destDir: Path, tasks: seq<Task>,
                          files: set<Path>, dirs: set<Path>, pooled: bool,
                          threads: nat, subs: set<nat>, run: seq<Pool.Action>, s: Pool.Pool)
    requires Separate(t, Due(t, a, srcDir, destDir), files, dirs)
    requires NoRepeats(tasks) && AsSet(tasks) == Due(t, a, srcDir, destDir)
    requires Pool.Reaches(threads, subs, run, s)
    requires s.submitted == |tasks| && s.active == 0 && forall u :: u in s.subs ==> s.subs[u] == Pool.Idle
    ensures
      var ended := Pool.Ended(Pool.Init(threads, subs), run);
      && |ended| == |tasks| && (forall n :: n in ended ==> n < |tasks|)
      && var r := ExecuteAll(t, InOrder(tasks, ended), Overwrite, pooled);
         && r.ok
         && forall p :: p in Below(t, Inside(srcDir)) ==>
              srcDir <= p && Matches(t, a, p, r.tree, Image(srcDir, destDir, p))
  {
    var init := Pool.Init(threads, subs);
    Pool.InitInv(threads, subs);
    Pool.EndedOnce(init, run);
    Pool.WaitMeansAllRan(threads, subs, run, s);
    var ended := Pool.Ended(init, run);
    assert forall n: nat :: n in ended <==> n < |tasks|;
    CountOf(ended, |tasks|);
    InOrderIsPermutation(tasks, ended);
    LocalSyncMatches(t, a, srcDir, destDir, InOrder(tasks, ended), files, dirs, pooled);
  }

  /** A source file and a regular file where the destination directory should be. */
  function BlockedTree(data: seq<byte>, mode: nat): Tree {
    map[Text("s") := Dir(mode), Text("s/f") := File(data, mode), Text("d") := File([], mode)]
  }

  /** The driver returns true whenever it has waited, whatever became of the tasks: here the only one that is due
      fails in every run. */
  lemma FailureIsNotReported(data: seq<byte>, mode: nat, a: Attributes, s: Strategy, pooled: bool)
    ensures
      var t, k := BlockedTree(data, mode), Task(Text("s/f"), Text("d/f"), false, mode);
      Due(t, a, Text("s"), Text("d")) == {k} && !ExecuteAll(t, [k], s, pooled).ok
  {
    var t, k := BlockedTree(data, mode), Task(Text("s/f"), Text("d/f"), false, mode);
    OnlyOneDue(data, mode, a);
    NoPlaceForFile(t, k, s, pooled);
    assert [k][1..] == [];
  }

  lemma NoPlaceForFile(t: Tree, k: Task, s: Strategy, pooled: bool)
    requires !k.isDir && k.dest == Text("d/f") && k.dest !in t && IsFile(t, Text("d"))
    ensures !Execute(t, k, s, pooled).ok
  {
    assert k.dest == [100, 47, 102] && Text("d") == [100];
    assert LastSlash(k.dest) == 1 && Parent(k.dest) == Text("d");
    FileTaskOkIff(t, k, s, pooled);
  }

  lemma OnlyOneDue(data: seq<byte>, mode: nat, a: Attributes)
    ensures
      var t, k := BlockedTree(data, mode), Task(Text("s/f"), Text("d/f"), false, mode);
      Text("d/f") !in t && Due(t, a, Text("s"), Text("d")) == {k}
  {
    var t, k := BlockedTree(data, mode), Task(Text("s/f"), Text("d/f"), false, mode);
    assert Text("s") == [115] && Text("d") == [100] && Text("s/f") == [115, 47, 102] && Text("d/f") == [100, 47, 102];
    assert Below(t, Inside(Text("s"))) == {Text("s/f")};
    assert Image(Text("s"), Text("d"), Text("s/f")) == Text("d/f");
    DueIffOutdated(t, a, Text("s"), Text("d"), Text("s/f"));
    forall x | x in Due(t, a, Text("s"), Text("d"))
      ensures x == k
    {
      DueTasksFit(t, a, Text("s"), Text("d"), x);
    }
  }

  /** A sequence that holds exactly the numbers below n, each once, has n elements. */
  lemma {:induction false} CountOf(ended: seq<nat>, n: nat)
    requires Pool.NoneTwice(ended) && forall i: nat :: i in ended <==> i < n
    ensures |ended| == n
    decreases n
  {
    if n == 0 {
      assert forall i :: 0 <= i < |ended| ==> ended[i] in ended;
    } else {
      assert n - 1 in ended;
      var k :| 0 <= k < |ended| && ended[k] == n - 1;
      var less := ended[..k] + ended[k + 1..];
      forall i: nat
        ensures i in less <==> i < n - 1
      {
        if i in less {
          var j :| 0 <= j < |less| && less[j] == i;
          assert less[j] == ended[if j < k then j else j + 1];
          assert i in ended && i != n - 1;
        }
        if i < n - 1 {
          assert i in ended;
          var j :| 0 <= j < |ended| && ended[j] == i;
          assert less[if j < k then j else j - 1] == i;
        }
      }
      assert Pool.NoneTwice(less) by {
        forall x, y | 0 <= x < y < |less|
          ensures less[x] != less[y]
        {
          assert less[x] == ended[if x < k then x else x + 1] && less[y] == ended[if y < k then y else y + 1];
        }
      }
      CountOf(less, n - 1);
    }
  }
}
