/** The in-process task registry, without Redis: which tasks exist, and which belong to
    which chat. Tasks finish, are stopped and are cleaned up in any order the event loop
    chooses; a chat is reported idle only when every task created for it has finished.
 */
module Tasks {
  type TaskId = string
  type ItemId = string

  /** The two dictionaries: tasks by id (their handles are not modelled) and each
      item's list of task ids.
   */
  datatype Book = Book(tasks: set<TaskId>, items: map<ItemId, seq<TaskId>>)

  const EMPTY := Book({}, map[])

  function ListFor(b: Book, item: ItemId): seq<TaskId> {
    if item in b.items then b.items[item] else []
  }

  function Without(ids: seq<TaskId>, id: TaskId): seq<TaskId> {
    if ids == [] then [] else if ids[0] == id then ids[1..] else [ids[0]] + Without(ids[1..], id)
  }

  function Created(b: Book, id: TaskId, item: ItemId): Book {
    Book(b.tasks + {id}, b.items[item := ListFor(b, item) + [id]])
  }

  function Cleaned(b: Book, id: TaskId, item: ItemId): Book {
    var left := Without(ListFor(b, item), id);
    Book(b.tasks - {id},
         if item == "" || id !in ListFor(b, item) then b.items
         else if left == [] then b.items - {item}
         else b.items[item := left])
  }

  class Registry {
    var tasks: set<TaskId>
    var items: map<ItemId, seq<TaskId>>

    function Contents(): Book
      reads this
    {
      Book(tasks, items)
    }

    constructor ()
      ensures Contents() == EMPTY
    {
      tasks, items := {}, map[];
    }

    /** `create_task`. */
    method CreateTask(id: TaskId, item: ItemId)
      modifies this
      ensures Contents() == Created(old(Contents()), id, item)
    {
      tasks := tasks + {id};
      if item in items && items[item] != [] {
        items := items[item := items[item] + [id]];
      } else {
        assert ListFor(Contents(), item) + [id] == [id];
        items := items[item := [id]];
      }
    }

    /** `cleanup_task`, scheduled when a task completes. */
    method CleanupTask(id: TaskId, item: ItemId)
      modifies this
      ensures Contents() == Cleaned(old(Contents()), id, item)
    {
      tasks := tasks - {id};
      if item != "" && item in items && id in items[item] {
        items := items[item := Without(items[item], id)];
        if items[item] == [] {
          items := items - {item};
        }
      }
    }

    /** `stop_task` up to where it waits: an id leaves `tasks` at once, its item's list
        only at its cleanup.
     */
    method StopTask(id: TaskId) returns (found: bool)
      modifies this
      ensures found == (id in old(tasks))
      ensures Contents() == old(Contents()).(tasks := old(tasks) - {id})
    {
      found := id in tasks;
      tasks := tasks - {id};
    }

    /** `has_active_tasks`. */
    method HasActiveTasks(item: ItemId) returns (active: bool)
      ensures active <==> ListFor(Contents(), item) != []
    {
      active := item in items && |items[item]| > 0;
    }
  }

  // ---- Every interleaving ---------------------------------------------------

  /** What the event loop may do next. Ids are fresh, and an item id is never empty. */
  datatype Action =
    | Create(id: TaskId, item: ItemId)
    | Finish(id: TaskId)
    | Stop(id: TaskId)
    | Cleanup(id: TaskId)

  /** The registry with what the loop knows: the ids created, in order, with their items;
      those finished; those whose cleanup has run.
   */
  datatype World = World(book: Book, created: seq<(TaskId, ItemId)>, finished: set<TaskId>, cleaned: set<TaskId>)

  function Ids(created: seq<(TaskId, ItemId)>): set<TaskId> {
    set p | p in created :: p.0
  }

  function ItemOf(created: seq<(TaskId, ItemId)>, id: TaskId): ItemId
    requires id in Ids(created)
  {
    if created[0].0 == id then created[0].1 else ItemOf(created[1..], id)
  }

  /** A step: a task can finish once; it is cleaned up once, after it has finished; stop
      may be called at any time, on any id.
   */
  predicate Enabled(w: World, a: Action) {
    match a
    case Create(id, item) => id !in Ids(w.created) && item != ""
    case Finish(id) => id in Ids(w.created) && id !in w.finished
    case Stop(_) => true
    case Cleanup(id) => id in w.finished && id in Ids(w.created) && id !in w.cleaned
  }

  function Next(w: World, a: Action): World
    requires Enabled(w, a)
  {
    match a
    case Create(id, item) => w.(book := Created(w.book, id, item), created := w.created + [(id, item)])
    case Finish(id) => w.(finished := w.finished + {id})
    case Stop(id) => w.(book := w.book.(tasks := w.book.tasks - {id}))
    case Cleanup(id) => w.(book := Cleaned(w.book, id, ItemOf(w.created, id)), cleaned := w.cleaned + {id})
  }

  ghost predicate Run(ws: seq<World>, actions: seq<Action>) {
    && |ws| == |actions| + 1
    && ws[0] == World(EMPTY, [], {}, {})
    && forall i :: 0 <= i < |actions| ==> Enabled(ws[i], actions[i]) && ws[i + 1] == Next(ws[i], actions[i])
  }

  /** The ids of an item not yet cleaned up, in the order they were created. */
  function Listed(created: seq<(TaskId, ItemId)>, cleaned: set<TaskId>, item: ItemId): seq<TaskId> {
    if created == [] then []
    else
      var last := created[|created| - 1];
      Listed(created[..|created| - 1], cleaned, item) + if last.1 == item && last.0 !in cleaned then [last.0] else []
  }

  ghost predicate Distinct(created: seq<(TaskId, ItemId)>) {
    forall i, j :: 0 <= i < j < |created| ==> created[i].0 != created[j].0
  }

  /** What every step keeps: each item's list is exactly its ids not yet cleaned up, in
      order, and no item is listed without one.
   */
  ghost predicate Inv(w: World) {
    && Distinct(w.created)
    && (forall p :: p in w.created ==> p.1 != "")
    && w.cleaned <= w.finished <= Ids(w.created)
    && w.book.tasks <= Ids(w.created) - w.cleaned
    && (forall item :: ListFor(w.book, item) == Listed(w.created, w.cleaned, item))
    && (forall item :: item in w.book.items ==> w.book.items[item] != [])
  }

  lemma {:induction false} InListed(created: seq<(TaskId, ItemId)>, cleaned: set<TaskId>, item: ItemId, id: TaskId)
    ensures id in Listed(created, cleaned, item) <==> (id, item) in created && id !in cleaned
  {
    if created != [] {
      InListed(created[..|created| - 1], cleaned, item, id);
      assert created == created[..|created| - 1] + [created[|created| - 1]];
    }
  }

  lemma {:induction false} WithoutAppend(ids: seq<TaskId>, id: TaskId, x: TaskId)
    ensures id !in ids ==> Without(ids, id) == ids && Without(ids + [id], id) == ids
    ensures x != id ==> Without(ids + [x], id) == Without(ids, id) + [x]
  {
    if ids != [] {
      WithoutAppend(ids[1..], id, x);
      assert (ids + [x])[1..] == ids[1..] + [x] && (ids + [id])[1..] == ids[1..] + [id];
    }
  }

  /** Cleaning up one task takes its id, and only its id, off its item's list. */
  lemma {:induction false} ListedCleaned(created: seq<(TaskId, ItemId)>, cleaned: set<TaskId>, item: ItemId, id: TaskId)
    requires Distinct(created)
    ensures Listed(created, cleaned + {id}, item) == Without(Listed(created, cleaned, item), id)
  {
    if created != [] {
      var front, last := created[..|created| - 1], created[|created| - 1];
      ListedCleaned(front, cleaned, item, id);
      InListed(front, cleaned, item, id);
      if last.0 == id {
        assert (id, item) !in front by { assert forall i :: 0 <= i < |front| ==> front[i] == created[i]; }
      }
      var listed := Listed(front, cleaned, item);
      WithoutAppend(listed, id, last.0);
      assert listed + [] == listed && Without(listed, id) + [] == Without(listed, id);
    }
  }

  lemma {:induction false} ItemOfCreated(created: seq<(TaskId, ItemId)>, id: TaskId)
    requires id in Ids(created)
    ensures (id, ItemOf(created, id)) in created
  {
    if created[0].0 != id {
      assert id in Ids(created[1..]) by {
        var p :| p in created && p.0 == id;
        assert p in created[1..];
      }
      ItemOfCreated(created[1..], id);
    }
  }

  lemma CreatedLists(w: World, id: TaskId, item: ItemId, other: ItemId)
    requires id !in w.cleaned && ListFor(w.book, other) == Listed(w.created, w.cleaned, other)
    ensures ListFor(Created(w.book, id, item), other) == Listed(w.created + [(id, item)], w.cleaned, other)
  {
    assert (w.created + [(id, item)])[..|w.created|] == w.created;
  }

  lemma CreateKeeps(w: World, id: TaskId, item: ItemId)
    requires Inv(w) && Enabled(w, Create(id, item))
    ensures Inv(Next(w, Create(id, item)))
  {
    forall other
      ensures ListFor(Created(w.book, id, item), other) == Listed(w.created + [(id, item)], w.cleaned, other)
    {
      CreatedLists(w, id, item, other);
    }
  }

  lemma CleanupKeeps(w: World, id: TaskId)
    requires Inv(w) && Enabled(w, Cleanup(id))
    ensures Inv(Next(w, Cleanup(id)))
  {
    var v, mine := Next(w, Cleanup(id)), ItemOf(w.created, id);
    ItemOfCreated(w.created, id);
    InListed(w.created, w.cleaned, mine, id);
    forall item ensures ListFor(v.book, item) == Listed(v.created, v.cleaned, item) {
      ListedCleaned(w.created, w.cleaned, item, id);
      if item != mine {
        assert (id, item) !in w.created;
        InListed(w.created, w.cleaned, item, id);
        WithoutAppend(Listed(w.created, w.cleaned, item), id, id);
      }
    }
  }

  lemma StepKeeps(w: World, a: Action)
    requires Inv(w) && Enabled(w, a)
    ensures Inv(Next(w, a))
  {
    match a
    case Create(id, item) => CreateKeeps(w, id, item);
    case Cleanup(id) => CleanupKeeps(w, id);
    case _ =>
  }

  lemma {:induction false} RunKeeps(ws: seq<World>, actions: seq<Action>, i: nat)
    requires Run(ws, actions) && i < |ws|
    ensures Inv(ws[i])
  {
    if i > 0 {
      RunKeeps(ws, actions, i - 1);
      StepKeeps(ws[i - 1], actions[i - 1]);
    }
  }

  /** At every moment of every run, a chat is active exactly while some task created for it
      has not been cleaned up - so it is idle only when they have all finished - and no item
      keeps an empty list.
   */
  lemma ActiveExactly(ws: seq<World>, actions: seq<Action>, i: nat, item: ItemId)
    requires Run(ws, actions) && i < |ws|
    ensures ListFor(ws[i].book, item) != [] <==> exists id :: (id, item) in ws[i].created && id !in ws[i].cleaned
    ensures ListFor(ws[i].book, item) == [] ==> forall id :: (id, item) in ws[i].created ==> id in ws[i].finished
    ensures item in ws[i].book.items <==> ListFor(ws[i].book, item) != []
  {
    RunKeeps(ws, actions, i);
    var w := ws[i];
    forall id ensures id in ListFor(w.book, item) <==> (id, item) in w.created && id !in w.cleaned {
      InListed(w.created, w.cleaned, item, id);
    }
    if ListFor(w.book, item) != [] { assert ListFor(w.book, item)[0] in ListFor(w.book, item); }
  }

  /** From its creation until its own cleanup, an id stays listed under its item - through
      its completion and any number of stops - and no task is cleaned up before it is done.
   */
  lemma ListedUntilCleanup(ws: seq<World>, actions: seq<Action>, i: nat, j: nat)
    requires Run(ws, actions) && i < j < |ws| && actions[i].Create?
    ensures actions[i].id in ListFor(ws[j].book, actions[i].item) <==>
      forall k :: i < k < j ==> actions[k] != Cleanup(actions[i].id)
    ensures actions[i].id !in ListFor(ws[j].book, actions[i].item) ==> actions[i].id in ws[j].finished
  {
    var id, item := actions[i].id, actions[i].item;
    RunKeeps(ws, actions, i);
    RunKeeps(ws, actions, j);
    CleanedBy(ws, actions, i, j);
    InListed(ws[j].created, ws[j].cleaned, item, id);
  }

  lemma {:induction false} CleanedBy(ws: seq<World>, actions: seq<Action>, i: nat, j: nat)
    requires Run(ws, actions) && i < j < |ws| && actions[i].Create? && Inv(ws[i])
    ensures (actions[i].id, actions[i].item) in ws[j].created
    ensures actions[i].id in ws[j].cleaned <==> exists k :: i < k < j && actions[k] == Cleanup(actions[i].id)
    decreases j
  {
    var id, last := actions[i].id, actions[j - 1];
    if j == i + 1 {
      assert ws[j].created[|ws[i].created|] == (id, actions[i].item);
    } else {
      CleanedBy(ws, actions, i, j - 1);
      assert last == Cleanup(id) ==> id in ws[j].cleaned;
      if last.Create? { assert ws[j].created == ws[j - 1].created + [(last.id, last.item)]; }
    }
  }

  /** Once every task created has been cleaned up, nothing is left in either map. */
  lemma AllCleanedEmpty(ws: seq<World>, actions: seq<Action>, i: nat)
    requires Run(ws, actions) && i < |ws| && ws[i].cleaned == Ids(ws[i].created)
    ensures ws[i].book == EMPTY
  {
    var w := ws[i];
    RunKeeps(ws, actions, i);
    forall item ensures item !in w.book.items {
      ActiveExactly(ws, actions, i, item);
      forall id | (id, item) in w.created ensures id in w.cleaned { assert id in Ids(w.created); }
    }
    assert w.book.items == map[];
  }
}
