/** The to-do window (`todo_app.py`, and the self-contained `todo-gui.py`,
    whose handlers do the same list changes inline). The state is the task
    list and `index_map`, which takes each row of the list box to the task
    shown there; here a row maps to the task's position in the list. Every
    handler that changes the list ends with `refresh`, so the map always
    matches the list when the user acts. Dialog answers and the selection
    are parameters. */
module TodoApp {
  import opened Wrappers
  import opened Text
  import opened TaskManager
  import opened TaskOrder

  datatype Window = Window(tasks: seq<Task>, indexMap: seq<nat>)

  /** `index_map` is what `refresh` builds from the current list. */
  predicate Synced(w: Window) {
    w.indexMap == Refresh(w.tasks)
  }

  /** `refresh`: the list is kept and the row map is rebuilt. */
  function Shown(tasks: seq<Task>): (w: Window)
    ensures Synced(w) && w.tasks == tasks
  {
    Window(tasks, Refresh(tasks))
  }

  /** `index_map.get(row)`: the position shown at a row, if any. */
  function Lookup(w: Window, row: nat): (r: Option<nat>)
    requires Synced(w)
    ensures r.Some? <==> row < |w.tasks|
    ensures r.Some? ==> r.value < |w.tasks|
  {
    if row < |w.indexMap| then Some(w.indexMap[row]) else None
  }

  /** `add_task`: the entry text is stripped; blank text is refused and
      nothing changes; otherwise one task is appended. */
  function AddTask(w: Window, entry: string, draws: seq<Id>, now: string): (r: Window)
    requires Blank(entry) || SomeFresh(w.tasks, draws)
    ensures !Blank(entry) || Synced(w) ==> Synced(r)
    ensures Blank(entry) ==> r == w
    ensures !Blank(entry) ==>
      && |r.tasks| == |w.tasks| + 1 && r.tasks[..|w.tasks|] == w.tasks
      && var t := r.tasks[|w.tasks|];
         t.title == Strip(entry) && |t.title| > 0 && !t.done && t.createdAt == now
         && t.id !in Ids(w.tasks)
    ensures UniqueIds(w.tasks) ==> UniqueIds(r.tasks)
  {
    var title := Strip(entry);
    if |title| == 0 then w
    else Shown(TaskManager.AddTask(w.tasks, title, draws, now))
  }

  /** The list with the task at `p` marked the other way. */
  function Flipped(tasks: seq<Task>, p: nat): (r: seq<Task>)
    requires p < |tasks|
    ensures |r| == |tasks|
    ensures forall j :: 0 <= j < |tasks| ==>
      && r[j].id == tasks[j].id && r[j].title == tasks[j].title
      && r[j].createdAt == tasks[j].createdAt
      && (r[j].done != tasks[j].done <==> j == p)
    ensures Refresh(r) == Refresh(tasks)
    ensures Ids(r) == Ids(tasks) && UniqueIds(r) == UniqueIds(tasks)
  {
    var r := tasks[p := tasks[p].(done := !tasks[p].done)];
    RefreshFollowsKeys(tasks, r);
    SameIds(tasks, r);
    r
  }

  /** The list with the task at `p` renamed to `title`. */
  function Retitled(tasks: seq<Task>, p: nat, title: string): (r: seq<Task>)
    requires p < |tasks|
    ensures |r| == |tasks|
    ensures forall j :: 0 <= j < |tasks| ==>
      && r[j].id == tasks[j].id && r[j].done == tasks[j].done
      && r[j].createdAt == tasks[j].createdAt
      && r[j].title == (if j == p then title else tasks[j].title)
    ensures Refresh(r) == Refresh(tasks)
    ensures Ids(r) == Ids(tasks) && UniqueIds(r) == UniqueIds(tasks)
  {
    var r := tasks[p := tasks[p].(title := title)];
    RefreshFollowsKeys(tasks, r);
    SameIds(tasks, r);
    r
  }

  /** `toggle_done`: flip `done` of the task at the first selected row. */
  function ToggleDone(w: Window, sel: seq<nat>): (r: Window)
    requires Synced(w)
    ensures Synced(r)
    ensures |sel| == 0 || Lookup(w, sel[0]).None? ==> r == w
    ensures |r.tasks| == |w.tasks| && r.indexMap == w.indexMap
    ensures forall j :: 0 <= j < |w.tasks| ==>
      && r.tasks[j].id == w.tasks[j].id && r.tasks[j].title == w.tasks[j].title
      && r.tasks[j].createdAt == w.tasks[j].createdAt
      && (r.tasks[j].done != w.tasks[j].done <==> |sel| > 0 && Lookup(w, sel[0]) == Some(j))
    ensures UniqueIds(r.tasks) == UniqueIds(w.tasks)
  {
    if |sel| == 0 then w
    else match Lookup(w, sel[0])
      case None => w
      case Some(p) => Shown(Flipped(w.tasks, p))
  }

  /** A second double-click on the same row undoes the first. */
  lemma {:induction false} ToggleTwiceRestores(w: Window, sel: seq<nat>)
    requires Synced(w)
    ensures ToggleDone(ToggleDone(w, sel), sel) == w
  {
    var once := ToggleDone(w, sel);
    var twice := ToggleDone(once, sel);
    assert twice.tasks == w.tasks;
  }

  /** `edit_selected`: the dialog answer (`None` when cancelled) replaces the
      title of the task at the first selected row, stripped; a cancelled or
      blank answer changes nothing. The id, `done` and `created_at` stay. */
  function EditSelected(w: Window, sel: seq<nat>, answer: Option<string>): (r: Window)
    requires Synced(w)
    ensures Synced(r)
    ensures |sel| == 0 || Lookup(w, sel[0]).None? || answer.None? || Blank(answer.value) ==> r == w
    ensures |r.tasks| == |w.tasks| && r.indexMap == w.indexMap
    ensures forall j :: 0 <= j < |w.tasks| ==>
      && r.tasks[j].id == w.tasks[j].id && r.tasks[j].done == w.tasks[j].done
      && r.tasks[j].createdAt == w.tasks[j].createdAt
    ensures Ids(r.tasks) == Ids(w.tasks) && UniqueIds(r.tasks) == UniqueIds(w.tasks)
  {
    if |sel| == 0 then w
    else match Lookup(w, sel[0])
      case None => w
      case Some(p) =>
        if answer.None? || |Strip(answer.value)| == 0 then w
        else Shown(Retitled(w.tasks, p, Strip(answer.value)))
  }

  /** Editing through the window retitles exactly the task at the first
      selected row, with the stripped answer. */
  lemma {:induction false} EditRetitlesSelected(w: Window, sel: seq<nat>, answer: string)
    requires Synced(w) && |sel| > 0 && sel[0] < |w.tasks| && !Blank(answer)
    ensures var p := w.indexMap[sel[0]];
      var r := EditSelected(w, sel, Some(answer));
      && r.tasks[p].title == Strip(answer)
      && forall j :: 0 <= j < |w.tasks| && j != p ==> r.tasks[j] == w.tasks[j]
  {
  }

  /** The positions shown at the selected rows that exist. */
  function Chosen(w: Window, sel: seq<nat>): set<nat>
    requires Synced(w)
  {
    set i | i in sel && i < |w.indexMap| :: w.indexMap[i]
  }

  /** `[index_map[i] for i in sel if i in index_map]`. */
  function Collect(w: Window, sel: seq<nat>): (r: seq<Task>)
    requires Synced(w)
    ensures forall t :: t in r <==> exists p :: p in Chosen(w, sel) && t == w.tasks[p]
    decreases |sel|
  {
    if |sel| == 0 then []
    else
      var rest := Collect(w, sel[1..]);
      assert Chosen(w, sel) == Chosen(w, sel[1..]) + (if sel[0] < |w.indexMap| then {w.indexMap[sel[0]]} else {}) by {
        assert forall i :: i in sel <==> i == sel[0] || i in sel[1..];
      }
      if sel[0] < |w.indexMap| then [w.tasks[w.indexMap[sel[0]]]] + rest else rest
  }

  /** The list without the tasks at the given positions, in order. */
  function Without(tasks: seq<Task>, chosen: set<nat>): (r: seq<Task>)
    ensures |r| <= |tasks|
    decreases |tasks|
  {
    if |tasks| == 0 then []
    else
      var n := |tasks| - 1;
      Without(tasks[..n], chosen) + (if n in chosen then [] else [tasks[n]])
  }

  /** With distinct ids, deleting by value removes exactly the tasks at the
      positions whose values were listed, and keeps the rest in order. */
  lemma {:induction false} DeleteByPositions(tasks: seq<Task>, toDelete: seq<Task>, chosen: set<nat>)
    requires forall q :: 0 <= q < |tasks| ==> (tasks[q] in toDelete <==> q in chosen)
    ensures DeleteTasks(tasks, toDelete) == Without(tasks, chosen)
    decreases |tasks|
  {
    if |tasks| > 0 {
      var n := |tasks| - 1;
      assert tasks == tasks[..n] + [tasks[n]];
      DeleteDistributes(tasks[..n], [tasks[n]], toDelete);
      DeleteByPositions(tasks[..n], toDelete, chosen);
      assert DeleteTasks([tasks[n]], toDelete) == (if n in chosen then [] else [tasks[n]]) by {
        assert [tasks[n]][1..] == [];
      }
    }
  }

  /** With distinct ids, a listed task value belongs to one chosen position. */
  lemma CollectMatchesChosen(w: Window, sel: seq<nat>)
    requires Synced(w) && UniqueIds(w.tasks)
    ensures forall q :: 0 <= q < |w.tasks| ==> (w.tasks[q] in Collect(w, sel) <==> q in Chosen(w, sel))
  {
    forall q | 0 <= q < |w.tasks| && w.tasks[q] in Collect(w, sel) ensures q in Chosen(w, sel) {
      var p :| p in Chosen(w, sel) && w.tasks[q] == w.tasks[p];
      assert w.tasks[q].id == w.tasks[p].id;
    }
  }

  /** With distinct ids, deleting the collected tasks removes exactly the
      chosen positions. */
  lemma DeleteRemovesChosen(w: Window, sel: seq<nat>)
    requires Synced(w)
    ensures UniqueIds(w.tasks) ==>
      var r := DeleteTasks(w.tasks, Collect(w, sel));
      && r == Without(w.tasks, Chosen(w, sel))
      && forall q :: 0 <= q < |w.tasks| ==> (w.tasks[q] in r <==> q !in Chosen(w, sel))
  {
    if UniqueIds(w.tasks) {
      CollectMatchesChosen(w, sel);
      DeleteByPositions(w.tasks, Collect(w, sel), Chosen(w, sel));
    }
  }

  /** `delete_selected`: after a confirmed prompt, remove every task shown
      at a selected row; no selection or a declined prompt changes nothing. */
  function DeleteSelected(w: Window, sel: seq<nat>, confirmed: bool): (r: Window)
    requires Synced(w)
    ensures Synced(r)
    ensures |sel| == 0 || !confirmed ==> r == w
    ensures |r.tasks| <= |w.tasks|
    ensures UniqueIds(w.tasks) ==> UniqueIds(r.tasks)
    ensures UniqueIds(w.tasks) && |sel| > 0 && confirmed ==>
      && r.tasks == Without(w.tasks, Chosen(w, sel))
      && forall q :: 0 <= q < |w.tasks| ==> (w.tasks[q] in r.tasks <==> q !in Chosen(w, sel))
  {
    if |sel| == 0 || !confirmed then w
    else
      var toDelete := Collect(w, sel);
      var tasks := DeleteTasks(w.tasks, toDelete);
      DeleteRemovesChosen(w, sel);
      Shown(tasks)
  }

  /** `clear_all`: a confirmed prompt empties the list, otherwise nothing
      changes. */
  function ClearAll(w: Window, confirmed: bool): (r: Window)
    ensures confirmed || Synced(w) ==> Synced(r)
    ensures confirmed ==> r.tasks == [] && r.indexMap == []
    ensures !confirmed ==> r == w
  {
    if confirmed then Shown([]) else w
  }

  /** What the user can do in the window, with the answers the dialogs give
      and, for adding, the `uuid4` draws and the clock reading. */
  datatype Action =
    | Add(entry: string, draws: seq<Id>, now: string)
    | Toggle(sel: seq<nat>)
    | Edit(sel: seq<nat>, answer: Option<string>)
    | Delete(sel: seq<nat>, confirmed: bool)
    | Clear(confirmed: bool)

  /** Adding needs one fresh draw; the source would keep drawing. */
  predicate Enabled(w: Window, a: Action) {
    a.Add? ==> Blank(a.entry) || SomeFresh(w.tasks, a.draws)
  }

  function Step(w: Window, a: Action): (r: Window)
    requires Synced(w) && Enabled(w, a)
    ensures Synced(r)
    ensures UniqueIds(w.tasks) ==> UniqueIds(r.tasks)
  {
    match a
    case Add(entry, draws, now) => AddTask(w, entry, draws, now)
    case Toggle(sel) => ToggleDone(w, sel)
    case Edit(sel, answer) => EditSelected(w, sel, answer)
    case Delete(sel, confirmed) => DeleteSelected(w, sel, confirmed)
    case Clear(confirmed) => ClearAll(w, confirmed)
  }

  /** Every add in the sequence finds a fresh draw when its turn comes. */
  predicate Feasible(w: Window, actions: seq<Action>)
    decreases |actions|
  {
    Synced(w) && (|actions| == 0 || (Enabled(w, actions[0]) && Feasible(Step(w, actions[0]), actions[1..])))
  }

  /** The window after a sequence of user actions: the row map always
      matches the list, and ids that start distinct stay distinct. */
  function Run(w: Window, actions: seq<Action>): (r: Window)
    requires Feasible(w, actions)
    ensures Synced(r)
    ensures UniqueIds(w.tasks) ==> UniqueIds(r.tasks)
    decreases |actions|
  {
    if |actions| == 0 then w else Run(Step(w, actions[0]), actions[1..])
  }
}
