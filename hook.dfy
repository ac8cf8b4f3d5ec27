/**
 * The `useTodos` hook as an object: its three state cells (`todos`,
 * `filter`, `search`), the storage slot the persistence effect writes, the
 * operations that replace the cells, and the two projections it hands to
 * the page.
 */
module Hook {
  import opened Types
  import opened Text
  import JsArray
  import Todos

  /**
   * `loadTodos`, fail-soft. `stored` is what storage holds under the fixed
   * key (`None` when nothing is there or storage cannot be read); `parse`
   * stands for JSON parsing plus the rebuilding of each `createdAt`, and
   * gives `None` where that throws (text that is not JSON, or JSON that is
   * not an array, or an array with a `null` element). A missing
   * or empty value, or one that does not parse, gives the empty list;
   * anything else gives exactly what was parsed.
   */
  function LoadTodos(stored: Option<string>, parse: string -> Option<seq<Todo>>): (r: seq<Todo>)
    ensures stored == None || stored == Some("") ==> r == []
    ensures stored.Some? && parse(stored.value) == None ==> r == []
    ensures stored.Some? && stored.value != "" && parse(stored.value).Some? ==> r == parse(stored.value).value
  {
    match stored
    case None => []
    case Some(s) =>
      if s == "" then []
      else match parse(s)
        case None => []
        case Some(ts) => ts
  }

  class TodoHook {
    /** The collection, newest first. */
    var todos: seq<Todo>
    var filter: Filter
    var search: string
    /** The collection as last written to storage by the persistence effect. */
    var saved: seq<Todo>

    /** The persistence effect has caught up with every change of `todos`. */
    ghost predicate Valid()
      reads this
    {
      saved == todos
    }

    /**
     * Mounting the hook: the collection is loaded, the view shows everything,
     * and the effect's first run writes the loaded collection back.
     */
    constructor (stored: Option<string>, parse: string -> Option<seq<Todo>>)
      ensures Valid()
      ensures todos == LoadTodos(stored, parse)
      ensures filter == All && search == ""
    {
      todos := LoadTodos(stored, parse);
      filter := All;
      search := "";
      saved := LoadTodos(stored, parse);
    }

    /**
     * `addTodo`. `freshId` and `now` stand for the UUID generator and the
     * clock; the generator is trusted to give an id no record has.
     */
    method AddTodo(text: string, priority: Priority, category: string, freshId: Id, now: Timestamp)
      requires Valid()
      requires freshId !in Todos.Ids(todos)
      modifies this
      ensures Valid()
      ensures todos == Todos.AddTodo(old(todos), freshId, text, priority, category, now)
      ensures filter == old(filter) && search == old(search)
      ensures Todos.Invariant(old(todos)) ==> Todos.Invariant(todos)
    {
      if IsBlank(text) {
        return;
      }
      if Todos.Invariant(todos) {
        Todos.AddKeepsInvariant(todos, freshId, text, priority, category, now);
      }
      todos := Todos.AddTodo(todos, freshId, text, priority, category, now);
      saved := todos;
    }

    /** `toggleTodo`. */
    method ToggleTodo(id: Id)
      requires Valid()
      modifies this
      ensures Valid()
      ensures todos == Todos.ToggleTodo(old(todos), id)
      ensures filter == old(filter) && search == old(search)
      ensures Todos.Invariant(old(todos)) ==> Todos.Invariant(todos)
    {
      Todos.ToggleKeepsInvariant(todos, id);
      todos := Todos.ToggleTodo(todos, id);
      saved := todos;
    }

    /** `deleteTodo`. */
    method DeleteTodo(id: Id)
      requires Valid()
      modifies this
      ensures Valid()
      ensures todos == Todos.DeleteTodo(old(todos), id)
      ensures filter == old(filter) && search == old(search)
      ensures Todos.Invariant(old(todos)) ==> Todos.Invariant(todos)
    {
      if Todos.Invariant(todos) {
        Todos.DeleteKeepsInvariant(todos, id);
      }
      todos := Todos.DeleteTodo(todos, id);
      saved := todos;
    }

    /** `editTodo`: blank text returns before anything is set. */
    method EditTodo(id: Id, text: string)
      requires Valid()
      modifies this
      ensures Valid()
      ensures todos == Todos.EditTodo(old(todos), id, text)
      ensures filter == old(filter) && search == old(search)
      ensures Todos.Invariant(old(todos)) ==> Todos.Invariant(todos)
    {
      if IsBlank(text) {
        return;
      }
      Todos.EditKeepsInvariant(todos, id, text);
      todos := Todos.EditTodo(todos, id, text);
      saved := todos;
    }

    /** `clearCompleted`. */
    method ClearCompleted()
      requires Valid()
      modifies this
      ensures Valid()
      ensures todos == Todos.ClearCompleted(old(todos))
      ensures filter == old(filter) && search == old(search)
      ensures Stats().completed == 0 && Stats().total == old(Stats()).active
      ensures Todos.Invariant(old(todos)) ==> Todos.Invariant(todos)
    {
      Todos.ClearCompletedStats(todos);
      if Todos.Invariant(todos) {
        Todos.ClearCompletedKeepsInvariant(todos);
      }
      todos := Todos.ClearCompleted(todos);
      saved := todos;
    }

    /** `setFilter`: only the view changes; nothing is written to storage. */
    method SetFilter(f: Filter)
      modifies this
      ensures filter == f
      ensures todos == old(todos) && search == old(search) && saved == old(saved)
      ensures Stats() == old(Stats())
    {
      filter := f;
    }

    /** `setSearch`: only the view changes; nothing is written to storage. */
    method SetSearch(s: string)
      modifies this
      ensures search == s
      ensures todos == old(todos) && filter == old(filter) && saved == old(saved)
      ensures Stats() == old(Stats())
    {
      search := s;
    }

    /**
     * The `todos` the hook returns, i.e. `filtered`: the records passing the
     * filter and the search, in collection order.
     */
    function Filtered(): (r: seq<Todo>)
      reads this
      ensures JsArray.IsSubsequence(r, todos)
      ensures forall t :: t in r <==>
        t in todos && Todos.MatchesFilter(filter, t) && Todos.MatchesSearch(search, t)
      ensures forall t :: multiset(r)[t] ==
                           if Todos.MatchesFilter(filter, t) && Todos.MatchesSearch(search, t) then multiset(todos)[t] else 0
    {
      Todos.FilteredKeepsOrder(todos, filter, search);
      Todos.Filtered(todos, filter, search)
    }

    /** The `stats` the hook returns, over the whole collection. */
    function Stats(): (r: Todos.Stats)
      reads this
      ensures r.total == |todos| && r.active + r.completed == r.total
      ensures r.active == |Todos.ClearCompleted(todos)|
    {
      Todos.GetStats(todos)
    }
  }
}
