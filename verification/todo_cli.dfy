/** The commands of the to-do command-line program (`todo_cli.py`, and its
    identical copy `todo-cli.py`) as transitions of the task list. Console
    messages and the save after each change are left out; the answer to the
    `clear` prompt is a parameter. */
module TodoCli {
  import opened Wrappers
  import opened Text
  import opened TaskManager

  /** `find_task`: the position of the first task with id `tid`. */
  function FindTask(tasks: seq<Task>, tid: Id): (r: Option<nat>)
    ensures r.None? <==> tid !in Ids(tasks)
    ensures r.Some? ==> r.value < |tasks| && tasks[r.value].id == tid
                        && forall j :: 0 <= j < r.value ==> tasks[j].id != tid
    decreases |tasks|
  {
    if |tasks| == 0 then None
    else if tasks[0].id == tid then Some(0)
    else
      var r := FindTask(tasks[1..], tid);
      assert tid in Ids(tasks) <==> tid in Ids(tasks[1..]) by {
        if tid in Ids(tasks) {
          var t :| t in tasks && t.id == tid;
          assert t in tasks[1..];
        }
        if tid in Ids(tasks[1..]) {
          var t :| t in tasks[1..] && t.id == tid;
          assert t in tasks;
        }
      }
      if r.None? then None else Some(r.value + 1)
  }

  /** With distinct ids the search finds the one task that carries the id. */
  lemma {:induction false} FindUnique(tasks: seq<Task>, i: nat)
    requires UniqueIds(tasks) && i < |tasks|
    ensures FindTask(tasks, tasks[i].id) == Some(i)
  {
    assert tasks[i] in tasks;
  }

  /** `cmd_add`: a title that is empty after stripping is refused; otherwise
      one task with the stripped title is appended. */
  function CmdAdd(tasks: seq<Task>, title: string, draws: seq<Id>, now: string): (r: seq<Task>)
    requires Blank(title) || SomeFresh(tasks, draws)
    ensures Blank(title) ==> r == tasks
    ensures !Blank(title) ==>
      && |r| == |tasks| + 1 && r[..|tasks|] == tasks
      && var t := r[|tasks|];
         t.title == Strip(title) && |t.title| > 0 && !t.done && t.createdAt == now
         && t.id !in Ids(tasks)
    ensures UniqueIds(tasks) ==> UniqueIds(r)
  {
    var stripped := Strip(title);
    if |stripped| == 0 then tasks
    else AddTask(tasks, stripped, draws, now)
  }

  /** `cmd_done`: mark the first task with id `tid` as done. */
  function CmdDone(tasks: seq<Task>, tid: Id): (r: seq<Task>)
    ensures |r| == |tasks|
    ensures tid !in Ids(tasks) ==> r == tasks
    ensures forall j :: 0 <= j < |tasks| ==>
      && r[j].id == tasks[j].id && r[j].title == tasks[j].title
      && r[j].createdAt == tasks[j].createdAt
      && r[j].done == (tasks[j].done || Some(j) == FindTask(tasks, tid))
    ensures Ids(r) == Ids(tasks)
  {
    match FindTask(tasks, tid)
    case None => tasks
    case Some(i) =>
      var r := tasks[i := tasks[i].(done := true)];
      SameIds(tasks, r);
      r
  }

  /** Marking the same id twice is marking it once. */
  lemma {:induction false} CmdDoneIdempotent(tasks: seq<Task>, tid: Id)
    ensures CmdDone(CmdDone(tasks, tid), tid) == CmdDone(tasks, tid)
  {
    var once := CmdDone(tasks, tid);
    assert forall j :: 0 <= j < |tasks| ==> once[j].id == tasks[j].id;
    assert FindTask(once, tid) == FindTask(tasks, tid) by {
      FindFollowsIds(tasks, once, tid);
    }
  }

  /** The search looks only at ids. */
  lemma {:induction false} FindFollowsIds(a: seq<Task>, b: seq<Task>, tid: Id)
    requires |a| == |b| && forall j :: 0 <= j < |a| ==> a[j].id == b[j].id
    ensures FindTask(a, tid) == FindTask(b, tid)
    decreases |a|
  {
    if |a| > 0 && a[0].id != tid {
      FindFollowsIds(a[1..], b[1..], tid);
    }
  }

  /** The position of the first element equal to `x`. */
  function IndexOf(s: seq<Task>, x: Task): (i: nat)
    requires x in s
    ensures i < |s| && s[i] == x
    ensures forall j :: 0 <= j < i ==> s[j] != x
    decreases |s|
  {
    if s[0] == x then 0 else 1 + IndexOf(s[1..], x)
  }

  /** `list.remove(x)`: drop the first element equal to `x`; Python raises
      when there is none, which `cmd_delete` never lets happen. */
  function RemoveFirst(s: seq<Task>, x: Task): (r: seq<Task>)
    requires x in s
    ensures var i := IndexOf(s, x); r == s[..i] + s[i + 1..]
    decreases |s|
  {
    if s[0] == x then s[1..]
    else
      var rest := RemoveFirst(s[1..], x);
      SpliceAfterHead(s, IndexOf(s[1..], x));
      [s[0]] + rest
  }

  lemma SpliceAfterHead(s: seq<Task>, i: nat)
    requires i < |s| - 1
    ensures [s[0]] + (s[1..][..i] + s[1..][i + 1..]) == s[..i + 1] + s[i + 2..]
  {
    assert s[..i + 1] == [s[0]] + s[1..][..i];
    assert s[i + 2..] == s[1..][i + 1..];
  }

  /** `cmd_delete`: remove the first task with id `tid`. */
  function CmdDelete(tasks: seq<Task>, tid: Id): (r: seq<Task>)
    ensures tid !in Ids(tasks) ==> r == tasks
    ensures tid in Ids(tasks) ==> |r| == |tasks| - 1
    ensures FindTask(tasks, tid).Some? ==>
      var i := FindTask(tasks, tid).value; r == tasks[..i] + tasks[i + 1..]
    ensures UniqueIds(tasks) ==> UniqueIds(r) && tid !in Ids(r) && Ids(r) == Ids(tasks) - {tid}
  {
    match FindTask(tasks, tid)
    case None => tasks
    case Some(k) =>
      assert IndexOf(tasks, tasks[k]) == k;
      RemoveAtKeepsUnique(tasks, k);
      RemoveFirst(tasks, tasks[k])
  }

  /** Dropping one position keeps the other ids and loses that one's id
      when ids are distinct. */
  lemma RemoveAtKeepsUnique(tasks: seq<Task>, k: nat)
    requires k < |tasks|
    ensures var r := tasks[..k] + tasks[k + 1..];
      UniqueIds(tasks) ==> UniqueIds(r) && Ids(r) == Ids(tasks) - {tasks[k].id}
  {
    var r := tasks[..k] + tasks[k + 1..];
    if UniqueIds(tasks) {
      forall i, j | 0 <= i < |r| && 0 <= j < |r| && i != j ensures r[i].id != r[j].id {
        RemoveAtIndex(tasks, k, i);
        RemoveAtIndex(tasks, k, j);
      }
      forall x | x in Ids(tasks) - {tasks[k].id} ensures x in Ids(r) {
        var t :| t in tasks && t.id == x;
        var j :| 0 <= j < |tasks| && tasks[j] == t;
        var i := if j < k then j else j - 1;
        RemoveAtIndex(tasks, k, i);
        assert r[i] in r;
      }
      forall x | x in Ids(r) ensures x in Ids(tasks) - {tasks[k].id} {
        var t :| t in r && t.id == x;
        var j :| 0 <= j < |r| && r[j] == t;
        RemoveAtIndex(tasks, k, j);
        assert tasks[Shifted(j, k)] in tasks;
      }
    }
  }

  /** Position `j` of the list with position `k` dropped. */
  function Shifted(j: nat, k: nat): nat {
    if j < k then j else j + 1
  }

  lemma RemoveAtIndex(tasks: seq<Task>, k: nat, j: nat)
    requires k < |tasks| && j < |tasks| - 1
    ensures (tasks[..k] + tasks[k + 1..])[j] == tasks[Shifted(j, k)]
  {
  }

  /** Python's `confirm.lower() == "yes"`, spelled out: the three letters
      y, e, s in either case. */
  predicate ConfirmsYes(confirm: string) {
    && |confirm| == 3
    && (confirm[0] == 'y' || confirm[0] == 'Y')
    && (confirm[1] == 'e' || confirm[1] == 'E')
    && (confirm[2] == 's' || confirm[2] == 'S')
  }

  /** `cmd_clear`: empty the list when the typed answer is "yes" in any
      letter case, otherwise keep it. */
  function CmdClear(tasks: seq<Task>, confirm: string): (r: seq<Task>)
    ensures ConfirmsYes(confirm) ==> r == []
    ensures !ConfirmsYes(confirm) ==> r == tasks
  {
    if AsciiLower(confirm) == "yes" then [] else tasks
  }
}
