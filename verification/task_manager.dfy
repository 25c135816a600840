/** The to-do list shared by the command-line and window programs: tasks,
    fresh identifiers, appending and deleting. Saving to `tasks.json` after
    each change is left out; the list itself is the state. */
module TaskManager {
  import opened Wrappers

  type Id = string

  /** One entry of the list: `id`, `title`, `done`, and the ISO-8601
      `created_at` timestamp. */
  datatype Task = Task(id: Id, title: string, done: bool, createdAt: string)

  function Ids(tasks: seq<Task>): set<Id> {
    set t | t in tasks :: t.id
  }

  /** No two tasks share an id. */
  predicate UniqueIds(tasks: seq<Task>) {
    forall i, j :: 0 <= i < |tasks| && 0 <= j < |tasks| && i != j ==> tasks[i].id != tasks[j].id
  }

  /** Lists that agree on every id have the same id set. */
  lemma SameIds(a: seq<Task>, b: seq<Task>)
    requires |a| == |b| && forall j :: 0 <= j < |a| ==> a[j].id == b[j].id
    ensures Ids(a) == Ids(b)
    ensures UniqueIds(a) == UniqueIds(b)
  {
    forall x | x in Ids(a) ensures x in Ids(b) {
      var t :| t in a && t.id == x;
      var j :| 0 <= j < |a| && a[j] == t;
      assert b[j] in b;
    }
    forall x | x in Ids(b) ensures x in Ids(a) {
      var t :| t in b && t.id == x;
      var j :| 0 <= j < |b| && b[j] == t;
      assert a[j] in a;
    }
  }

  /** Some random draw is not yet used as an id. */
  predicate SomeFresh(tasks: seq<Task>, draws: seq<Id>) {
    exists k :: 0 <= k < |draws| && draws[k] !in Ids(tasks)
  }

  /** `generate_unique_id`: the first of the successive `uuid4` draws that is
      not an existing id. The source draws until one is fresh; here the draws
      are a parameter, and when every one of them clashes there is no result. */
  function GenerateUniqueId(tasks: seq<Task>, draws: seq<Id>): (r: Option<Id>)
    ensures r.Some? <==> SomeFresh(tasks, draws)
    ensures r.Some? ==> r.value !in Ids(tasks)
    ensures r.Some? ==> exists k :: 0 <= k < |draws| && draws[k] == r.value
                                 && forall j :: 0 <= j < k ==> draws[j] in Ids(tasks)
    decreases |draws|
  {
    if |draws| == 0 then None
    else if draws[0] !in Ids(tasks) then Some(draws[0])
    else
      var r := GenerateUniqueId(tasks, draws[1..]);
      assert SomeFresh(tasks, draws[1..]) ==> SomeFresh(tasks, draws) by {
        if SomeFresh(tasks, draws[1..]) {
          var k :| 0 <= k < |draws[1..]| && draws[1..][k] !in Ids(tasks);
          assert draws[k + 1] !in Ids(tasks);
        }
      }
      assert r.Some? ==> exists k :: 0 <= k < |draws| && draws[k] == r.value
                                   && forall j :: 0 <= j < k ==> draws[j] in Ids(tasks) by {
        if r.Some? {
          var k :| 0 <= k < |draws[1..]| && draws[1..][k] == r.value
                   && forall j :: 0 <= j < k ==> draws[1..][j] in Ids(tasks);
          assert draws[k + 1] == r.value;
          assert forall j :: 0 <= j < k + 1 ==> draws[j] in Ids(tasks) by {
            forall j | 0 <= j < k + 1 ensures draws[j] in Ids(tasks) {
              if j > 0 { assert draws[j] == draws[1..][j - 1]; }
            }
          }
        }
      }
      r
  }

  /** `add_task`: append one task with a fresh id, the title exactly as
      given, not done, created at `now`. */
  function AddTask(tasks: seq<Task>, title: string, draws: seq<Id>, now: string): (r: seq<Task>)
    requires SomeFresh(tasks, draws)
    ensures |r| == |tasks| + 1 && r[..|tasks|] == tasks
    ensures var t := r[|tasks|]; t.title == title && !t.done && t.createdAt == now && t.id !in Ids(tasks)
    ensures UniqueIds(tasks) ==> UniqueIds(r)
    ensures Ids(r) == Ids(tasks) + {r[|tasks|].id}
  {
    var t := Task(GenerateUniqueId(tasks, draws).value, title, false, now);
    var r := tasks + [t];
    assert r[..|tasks|] == tasks;
    assert Ids(r) == Ids(tasks) + {t.id} by {
      assert forall x :: x in r <==> x in tasks || x == t;
    }
    assert UniqueIds(tasks) ==> UniqueIds(r) by {
      if UniqueIds(tasks) {
        forall i, j | 0 <= i < |r| && 0 <= j < |r| && i != j ensures r[i].id != r[j].id {
          if j == |tasks| { assert r[i] in tasks; }
          if i == |tasks| { assert r[j] in tasks; }
        }
      }
    }
    r
  }

  /** `delete_tasks`: keep, in order, every task that is not equal to one of
      `toDelete`. Equality is on the whole task, as the source compares
      dictionaries. */
  function DeleteTasks(tasks: seq<Task>, toDelete: seq<Task>): (r: seq<Task>)
    ensures forall t :: t in r <==> t in tasks && t !in toDelete
    ensures |r| <= |tasks|
    ensures UniqueIds(tasks) ==> UniqueIds(r)
    decreases |tasks|
  {
    if |tasks| == 0 then []
    else
      var rest := DeleteTasks(tasks[1..], toDelete);
      assert forall t :: t in tasks <==> t == tasks[0] || t in tasks[1..];
      if tasks[0] in toDelete then rest
      else
        assert UniqueIds(tasks) ==> UniqueIds([tasks[0]] + rest) by {
          if UniqueIds(tasks) {
            assert UniqueIds(tasks[1..]);
            forall j | 0 <= j < |rest| ensures rest[j].id != tasks[0].id {
              assert rest[j] in tasks[1..];
              var k :| 0 <= k < |tasks[1..]| && tasks[1..][k] == rest[j];
              assert tasks[k + 1] == rest[j];
            }
          }
        }
        [tasks[0]] + rest
  }

  /** Deleting twice is deleting once. */
  lemma {:induction false} DeleteIdempotent(tasks: seq<Task>, toDelete: seq<Task>)
    ensures DeleteTasks(DeleteTasks(tasks, toDelete), toDelete) == DeleteTasks(tasks, toDelete)
    decreases |tasks|
  {
    if |tasks| > 0 {
      DeleteIdempotent(tasks[1..], toDelete);
      var rest := DeleteTasks(tasks[1..], toDelete);
      if tasks[0] !in toDelete {
        assert ([tasks[0]] + rest)[1..] == rest;
      }
    }
  }

  /** Deletion works piece by piece, so the kept tasks stay in their
      original relative order. */
  lemma {:induction false} DeleteDistributes(a: seq<Task>, b: seq<Task>, toDelete: seq<Task>)
    ensures DeleteTasks(a + b, toDelete) == DeleteTasks(a, toDelete) + DeleteTasks(b, toDelete)
    decreases |a|
  {
    if |a| == 0 {
      assert a + b == b;
    } else {
      assert (a + b)[0] == a[0];
      assert (a + b)[1..] == a[1..] + b;
      DeleteDistributes(a[1..], b, toDelete);
    }
  }
}
