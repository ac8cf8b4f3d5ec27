/**
 * The task collection of the `useTodos` hook as values: the bodies of its
 * update operations (each a whole-list transformation `seq<Todo> ->
 * seq<Todo>`), the visible projection and the counts, and what they
 * promise.
 */
module Todos {
  import opened Types
  import opened Text
  import JsArray

  // ---------------------------------------------------------------------
  // Per-record steps handed to `map` and `filter`

  /** The step `toggleTodo` maps over the list. */
  function ToggleIfId(id: Id): (f: Todo -> Todo)
    ensures forall t :: f(t).completed == (t.completed != (t.id == id)) && f(t).(completed := t.completed) == t
    ensures forall t :: f(f(t)) == t
  {
    (t: Todo) => if t.id == id then t.(completed := !t.completed) else t
  }

  /** The step `editTodo` maps over the list, with the text already trimmed. */
  function RetextIfId(id: Id, text: string): (f: Todo -> Todo)
    ensures forall t :: f(t).text == (if t.id == id then text else t.text) && f(t).(text := t.text) == t
    ensures forall t :: f(f(t)) == f(t)
  {
    (t: Todo) => if t.id == id then t.(text := text) else t
  }

  /** The test `deleteTodo` filters with. */
  function IdIsNot(id: Id): (p: Todo -> bool)
    ensures forall t :: p(t) <==> ToggleIfId(id)(t) == t
  {
    (t: Todo) => t.id != id
  }

  /** Not completed: the test `clearCompleted` and the active count use. */
  predicate IsActive(t: Todo)
    ensures IsActive(t) <==> MatchesFilter(Active, t)
  {
    !t.completed
  }

  /** Completed: the test of the completed count. */
  predicate IsDone(t: Todo)
    ensures IsDone(t) <==> !IsActive(t)
  {
    t.completed
  }

  // ---------------------------------------------------------------------
  // Update operations

  /**
   * `addTodo`: blank text (empty once trimmed) changes nothing; otherwise a
   * new, not completed record with the trimmed text goes in front.
   */
  function AddTodo(todos: seq<Todo>, id: Id, text: string, priority: Priority,
                   category: string, now: Timestamp): (r: seq<Todo>)
    ensures IsBlank(text) ==> r == todos
    ensures !IsBlank(text) ==> |r| == |todos| + 1 && r[1..] == todos
    ensures !IsBlank(text) ==>
      r[0].id == id && r[0].text == Trim(text) && !r[0].completed &&
      r[0].priority == priority && r[0].category == category && r[0].createdAt == now
  {
    if IsBlank(text) then todos
    else [Todo(id, Trim(text), false, priority, now, category)] + todos
  }

  /**
   * `toggleTodo`: each record with the given id has its completion flag
   * negated and every other field kept; every other record stays as it was.
   */
  function ToggleTodo(todos: seq<Todo>, id: Id): (r: seq<Todo>)
    ensures |r| == |todos|
    ensures forall i :: 0 <= i < |todos| ==>
      r[i].completed == (todos[i].completed != (todos[i].id == id)) &&
      r[i].(completed := todos[i].completed) == todos[i]
  {
    JsArray.Map(todos, ToggleIfId(id))
  }

  /** `deleteTodo`: the records whose id differs from the given one. */
  function DeleteTodo(todos: seq<Todo>, id: Id): (r: seq<Todo>)
    ensures |r| <= |todos|
    ensures forall t :: t in r <==> t in todos && t.id != id
    ensures forall t :: multiset(r)[t] == if t.id != id then multiset(todos)[t] else 0
  {
    JsArray.FilterCounts(todos, IdIsNot(id));
    JsArray.Filter(todos, IdIsNot(id))
  }

  /**
   * `editTodo`: blank text changes nothing; otherwise each record with the
   * given id gets the trimmed text and keeps every other field, and every
   * other record stays as it was.
   */
  function EditTodo(todos: seq<Todo>, id: Id, text: string): (r: seq<Todo>)
    ensures IsBlank(text) ==> r == todos
    ensures |r| == |todos|
    ensures forall i :: 0 <= i < |todos| ==>
      r[i].(text := todos[i].text) == todos[i] &&
      r[i].text == if todos[i].id == id && !IsBlank(text) then Trim(text) else todos[i].text
  {
    if IsBlank(text) then todos
    else JsArray.Map(todos, RetextIfId(id, Trim(text)))
  }

  /** `clearCompleted`: the records that are not completed. */
  function ClearCompleted(todos: seq<Todo>): (r: seq<Todo>)
    ensures |r| <= |todos|
    ensures forall t :: t in r <==> t in todos && !t.completed
  {
    JsArray.Filter(todos, IsActive)
  }

  // ---------------------------------------------------------------------
  // Projections

  /** The completion-state part of the visible-list test. */
  predicate MatchesFilter(filter: Filter, t: Todo)
    ensures filter == All ==> MatchesFilter(filter, t)
    ensures filter != All ==> (MatchesFilter(filter, t) <==> (filter == Completed) == t.completed)
  {
    filter == All || (filter == Active && !t.completed) || (filter == Completed && t.completed)
  }

  /** The search part: a case-insensitive substring test on the text. */
  predicate MatchesSearch(search: string, t: Todo)
    ensures MatchesSearch(search, t) ==> |search| <= |t.text|
  {
    Includes(ToLower(t.text), ToLower(search))
  }

  /** The test the visible list filters with. */
  function Shown(filter: Filter, search: string): (p: Todo -> bool)
    ensures forall t :: p(t) ==> t.text != [] || search == []
    ensures forall t :: p(t) <==> MatchesFilter(filter, t) && MatchesSearch(search, t)
  {
    (t: Todo) => MatchesFilter(filter, t) && MatchesSearch(search, t)
  }

  /**
   * `filtered`, the list the hook hands out: the records that pass both the
   * completion filter and the search.
   */
  function Filtered(todos: seq<Todo>, filter: Filter, search: string): (r: seq<Todo>)
    ensures |r| <= |todos|
    ensures forall t :: t in r <==> t in todos && MatchesFilter(filter, t) && MatchesSearch(search, t)
    ensures forall t :: multiset(r)[t] ==
                         if MatchesFilter(filter, t) && MatchesSearch(search, t) then multiset(todos)[t] else 0
  {
    JsArray.FilterCounts(todos, Shown(filter, search));
    JsArray.Filter(todos, Shown(filter, search))
  }

  datatype Stats = Stats(total: nat, active: nat, completed: nat)

  /**
   * `stats`, over the whole list whatever the filter and search: every
   * record is counted once, as active or as completed.
   */
  function GetStats(todos: seq<Todo>): (r: Stats)
    ensures r.total == |todos|
    ensures r.active + r.completed == r.total
  {
    JsArray.FilterPartition(todos, IsActive, IsDone);
    Stats(|todos|, |JsArray.Filter(todos, IsActive)|, |JsArray.Filter(todos, IsDone)|)
  }

  // ---------------------------------------------------------------------
  // The collection invariant: unique ids, and texts that are trimmed and
  // not empty

  function Ids(todos: seq<Todo>): (ids: set<Id>)
  {
    set t | t in todos :: t.id
  }

  predicate UniqueIds(todos: seq<Todo>)
  {
    forall i, j :: 0 <= i < j < |todos| ==> todos[i].id != todos[j].id
  }

  /** A text `addTodo` and `editTodo` could have stored. */
  predicate IsStoredText(text: string)
  {
    text != [] && Trim(text) == text
  }

  predicate Invariant(todos: seq<Todo>)
  {
    UniqueIds(todos) && forall t :: t in todos ==> IsStoredText(t.text)
  }

  /** A list with a record in front has unique ids exactly when the rest does and the new id is not among them. */
  lemma UniqueIdsCons(t: Todo, s: seq<Todo>)
    ensures UniqueIds([t] + s) <==> UniqueIds(s) && t.id !in Ids(s)
  {
    var ts := [t] + s;
    if UniqueIds(ts) {
      forall i, j | 0 <= i < j < |s| ensures s[i].id != s[j].id {
        assert ts[i + 1] == s[i] && ts[j + 1] == s[j];
      }
      forall u | u in s ensures u.id != t.id {
        var k :| 0 <= k < |s| && s[k] == u;
        assert ts[0] == t && ts[k + 1] == u;
      }
    }
    if UniqueIds(s) && t.id !in Ids(s) {
      forall i, j | 0 <= i < j < |ts| ensures ts[i].id != ts[j].id {
        assert ts[j] == s[j - 1];
        if i == 0 {
          assert s[j - 1] in s;
          assert s[j - 1].id in Ids(s);
        } else {
          assert ts[i] == s[i - 1];
        }
      }
    }
  }

  /** Filtering keeps ids unique. */
  lemma {:induction false} FilterKeepsUnique(s: seq<Todo>, p: Todo -> bool)
    requires UniqueIds(s)
    ensures UniqueIds(JsArray.Filter(s, p))
  {
    if s != [] {
      assert s == [s[0]] + s[1..];
      UniqueIdsCons(s[0], s[1..]);
      FilterKeepsUnique(s[1..], p);
      var rest := JsArray.Filter(s[1..], p);
      if p(s[0]) {
        assert Ids(rest) <= Ids(s[1..]);
        UniqueIdsCons(s[0], rest);
      }
    }
  }

  /** Mapping with a step that keeps ids keeps uniqueness and the id set. */
  lemma MapKeepsIds(s: seq<Todo>, f: Todo -> Todo)
    requires forall t :: f(t).id == t.id
    ensures UniqueIds(JsArray.Map(s, f)) == UniqueIds(s)
    ensures Ids(JsArray.Map(s, f)) == Ids(s)
  {
    var r := JsArray.Map(s, f);
    forall x | x in Ids(r) ensures x in Ids(s) {
      var u :| u in r && u.id == x;
      var k :| 0 <= k < |r| && r[k] == u;
      assert s[k] in s;
    }
    forall x | x in Ids(s) ensures x in Ids(r) {
      var u :| u in s && u.id == x;
      var k :| 0 <= k < |s| && s[k] == u;
      assert r[k] in r;
    }
  }

  // ---------------------------------------------------------------------
  // addTodo

  /** A non-blank add makes the list one longer, its text is a storable one, and the old list follows it unchanged. */
  lemma AddPrepends(todos: seq<Todo>, id: Id, text: string, priority: Priority,
                    category: string, now: Timestamp)
    requires !IsBlank(text)
    ensures var r := AddTodo(todos, id, text, priority, category, now);
      |r| == |todos| + 1 && r[1..] == todos && IsStoredText(r[0].text) && r[0].id == id
  {
    TrimIdempotent(text);
  }

  /** With a fresh id, adding keeps the collection invariant. */
  lemma AddKeepsInvariant(todos: seq<Todo>, id: Id, text: string, priority: Priority,
                          category: string, now: Timestamp)
    requires Invariant(todos) && id !in Ids(todos)
    ensures Invariant(AddTodo(todos, id, text, priority, category, now))
  {
    if !IsBlank(text) {
      var r := AddTodo(todos, id, text, priority, category, now);
      AddPrepends(todos, id, text, priority, category, now);
      assert r == [r[0]] + todos;
      UniqueIdsCons(r[0], todos);
    }
  }

  /** A non-blank add is counted as one more record, and an active one. */
  lemma AddStats(todos: seq<Todo>, id: Id, text: string, priority: Priority,
                 category: string, now: Timestamp)
    ensures var r := AddTodo(todos, id, text, priority, category, now);
      GetStats(r) == if IsBlank(text) then GetStats(todos)
                     else Stats(|todos| + 1, GetStats(todos).active + 1, GetStats(todos).completed)
  {
    if !IsBlank(text) {
      var r := AddTodo(todos, id, text, priority, category, now);
      assert r == [r[0]] + r[1..];
    }
  }

  /** The record just added heads the visible list when nothing is filtered out. */
  lemma AddShowsFirst(todos: seq<Todo>, id: Id, text: string, priority: Priority,
                      category: string, now: Timestamp)
    requires !IsBlank(text)
    ensures var r := AddTodo(todos, id, text, priority, category, now);
      Filtered(r, All, "") == r && Filtered(r, All, "")[0].id == id
  {
    FilteredShowsAll(AddTodo(todos, id, text, priority, category, now));
  }

  // ---------------------------------------------------------------------
  // toggleTodo

  /** Toggling the same id twice restores the list. */
  lemma ToggleTwice(todos: seq<Todo>, id: Id)
    ensures ToggleTodo(ToggleTodo(todos, id), id) == todos
  {
    JsArray.MapInvolution(todos, ToggleIfId(id));
  }

  /** Toggling an id no record has changes nothing. */
  lemma ToggleAbsent(todos: seq<Todo>, id: Id)
    requires id !in Ids(todos)
    ensures ToggleTodo(todos, id) == todos
  {
    JsArray.MapFixes(todos, ToggleIfId(id));
  }

  /** Toggling keeps ids, texts and therefore the collection invariant. */
  lemma ToggleKeepsInvariant(todos: seq<Todo>, id: Id)
    ensures Ids(ToggleTodo(todos, id)) == Ids(todos)
    ensures Invariant(todos) ==> Invariant(ToggleTodo(todos, id))
  {
    var r := ToggleTodo(todos, id);
    MapKeepsIds(todos, ToggleIfId(id));
    forall t | t in r ensures exists u :: u in todos && u.text == t.text {
      var k :| 0 <= k < |r| && r[k] == t;
      assert todos[k] in todos;
    }
  }

  /** With unique ids, toggling a present active record moves one count from active to completed, and the reverse for a completed one. */
  lemma ToggleStats(todos: seq<Todo>, id: Id, k: nat)
    requires UniqueIds(todos) && k < |todos| && todos[k].id == id
    ensures var before, after := GetStats(todos), GetStats(ToggleTodo(todos, id));
      after.total == before.total &&
      if todos[k].completed then after.active == before.active + 1 && after.completed + 1 == before.completed
      else after.active + 1 == before.active && after.completed == before.completed + 1
  {
    var r := ToggleTodo(todos, id);
    // r and todos differ only at k
    forall i | 0 <= i < |todos| && i != k ensures r[i] == todos[i] {
      assert todos[i].id != id;
    }
    if todos[k].completed {
      CountChange(todos, r, k, IsActive);
      CountChange(r, todos, k, IsDone);
    } else {
      CountChange(r, todos, k, IsActive);
      CountChange(todos, r, k, IsDone);
    }
  }

  /**
   * Two lists that differ at one place only, where `b`'s record passes `p`
   * and `a`'s does not: `b` has one more record passing `p`.
   */
  lemma {:induction false} CountChange(a: seq<Todo>, b: seq<Todo>, k: nat, p: Todo -> bool)
    requires |a| == |b| && k < |a| && !p(a[k]) && p(b[k])
    requires forall i :: 0 <= i < |a| && i != k ==> a[i] == b[i]
    ensures |JsArray.Filter(b, p)| == |JsArray.Filter(a, p)| + 1
  {
    if k == 0 {
      assert a[1..] == b[1..];
    } else {
      CountChange(a[1..], b[1..], k - 1, p);
    }
  }

  // ---------------------------------------------------------------------
  // deleteTodo

  /** Deleting keeps the order of the records that stay. */
  lemma DeleteKeepsOrder(todos: seq<Todo>, id: Id)
    ensures JsArray.IsSubsequence(DeleteTodo(todos, id), todos)
  {
    JsArray.FilterIsSubsequence(todos, IdIsNot(id));
  }

  /** Deleting the same id again changes nothing. */
  lemma DeleteTwice(todos: seq<Todo>, id: Id)
    ensures DeleteTodo(DeleteTodo(todos, id), id) == DeleteTodo(todos, id)
  {
    JsArray.FilterIdempotent(todos, IdIsNot(id));
  }

  /** Deleting an id no record has changes nothing. */
  lemma DeleteAbsent(todos: seq<Todo>, id: Id)
    requires id !in Ids(todos)
    ensures DeleteTodo(todos, id) == todos
  {
    JsArray.FilterKeepsAll(todos, IdIsNot(id));
  }

  /** With unique ids, deleting a present id removes exactly one record. */
  lemma DeleteRemovesOne(todos: seq<Todo>, id: Id, k: nat)
    requires UniqueIds(todos) && k < |todos| && todos[k].id == id
    ensures |DeleteTodo(todos, id)| == |todos| - 1
    ensures GetStats(DeleteTodo(todos, id)).total == GetStats(todos).total - 1
  {
    JsArray.FilterDropsOne(todos, IdIsNot(id), k);
  }

  /** Deleting keeps the collection invariant. */
  lemma DeleteKeepsInvariant(todos: seq<Todo>, id: Id)
    requires Invariant(todos)
    ensures Invariant(DeleteTodo(todos, id))
  {
    FilterKeepsUnique(todos, IdIsNot(id));
  }

  // ---------------------------------------------------------------------
  // editTodo

  /** Editing an id no record has changes nothing. */
  lemma EditAbsent(todos: seq<Todo>, id: Id, text: string)
    requires id !in Ids(todos)
    ensures EditTodo(todos, id, text) == todos
  {
    if !IsBlank(text) {
      JsArray.MapFixes(todos, RetextIfId(id, Trim(text)));
    }
  }

  /** Editing keeps ids and so their uniqueness, and with it the collection invariant. */
  lemma EditKeepsInvariant(todos: seq<Todo>, id: Id, text: string)
    ensures Ids(EditTodo(todos, id, text)) == Ids(todos)
    ensures Invariant(todos) ==> Invariant(EditTodo(todos, id, text))
  {
    if !IsBlank(text) {
      MapKeepsIds(todos, RetextIfId(id, Trim(text)));
      if Invariant(todos) {
        EditStoresTrimmed(todos, id, text);
      }
    }
  }

  /** Editing stores only trimmed, non-empty text. */
  lemma EditStoresTrimmed(todos: seq<Todo>, id: Id, text: string)
    requires forall t :: t in todos ==> IsStoredText(t.text)
    ensures forall t :: t in EditTodo(todos, id, text) ==> IsStoredText(t.text)
  {
    TrimIdempotent(text);
    var r := EditTodo(todos, id, text);
    forall t | t in r ensures IsStoredText(t.text) {
      var k :| 0 <= k < |r| && r[k] == t;
      assert todos[k] in todos;
    }
  }

  // ---------------------------------------------------------------------
  // clearCompleted and stats

  /**
   * Clearing yields exactly the records that are not completed: in their
   * order, each as often as before, and no completed one.
   */
  lemma ClearCompletedExact(todos: seq<Todo>, t: Todo)
    ensures JsArray.IsSubsequence(ClearCompleted(todos), todos)
    ensures multiset(ClearCompleted(todos))[t] == if t.completed then 0 else multiset(todos)[t]
  {
    JsArray.FilterIsSubsequence(todos, IsActive);
    JsArray.FilterOccurrences(todos, IsActive, t);
  }

  /** Clearing twice is clearing once. */
  lemma ClearCompletedTwice(todos: seq<Todo>)
    ensures ClearCompleted(ClearCompleted(todos)) == ClearCompleted(todos)
  {
    JsArray.FilterIdempotent(todos, IsActive);
  }

  /** After clearing, nothing is completed and every remaining record was an active one. */
  lemma ClearCompletedStats(todos: seq<Todo>)
    ensures GetStats(ClearCompleted(todos)) ==
      Stats(GetStats(todos).active, GetStats(todos).active, 0)
  {
    ClearCompletedTwice(todos);
  }

  /** Clearing keeps the collection invariant. */
  lemma ClearCompletedKeepsInvariant(todos: seq<Todo>)
    requires Invariant(todos)
    ensures Invariant(ClearCompleted(todos))
  {
    FilterKeepsUnique(todos, IsActive);
  }

  // ---------------------------------------------------------------------
  // The visible list

  /** The visible list keeps the order of the records it shows. */
  lemma FilteredKeepsOrder(todos: seq<Todo>, filter: Filter, search: string)
    ensures JsArray.IsSubsequence(Filtered(todos, filter, search), todos)
  {
    JsArray.FilterIsSubsequence(todos, Shown(filter, search));
  }

  /** An empty search matches every record. */
  lemma EmptySearchMatches(t: Todo)
    ensures MatchesSearch("", t)
  {
    IncludesEmpty(ToLower(t.text));
  }

  /** With filter `all` and an empty search, the visible list is the whole list. */
  lemma FilteredShowsAll(todos: seq<Todo>)
    ensures Filtered(todos, All, "") == todos
  {
    forall t | t in todos ensures Shown(All, "")(t) {
      EmptySearchMatches(t);
    }
    JsArray.FilterKeepsAll(todos, Shown(All, ""));
  }

  /** With filter `active` and an empty search, the visible list is what clearing would keep. */
  lemma FilteredActive(todos: seq<Todo>)
    ensures Filtered(todos, Active, "") == ClearCompleted(todos)
  {
    forall t | t in todos ensures Shown(Active, "")(t) == IsActive(t) {
      EmptySearchMatches(t);
    }
    JsArray.FilterAgreeing(todos, Shown(Active, ""), IsActive);
  }

  /** With filter `completed` and an empty search, the visible list is the completed records, and there are as many as the completed count says. */
  lemma FilteredCompleted(todos: seq<Todo>)
    ensures Filtered(todos, Completed, "") == JsArray.Filter(todos, IsDone)
    ensures |Filtered(todos, Completed, "")| == GetStats(todos).completed
  {
    forall t | t in todos ensures Shown(Completed, "")(t) == IsDone(t) {
      EmptySearchMatches(t);
    }
    JsArray.FilterAgreeing(todos, Shown(Completed, ""), IsDone);
  }

  /** The search ignores ASCII letter case: searches that lower-case alike show the same records. */
  lemma SearchIgnoresCase(todos: seq<Todo>, filter: Filter, search1: string, search2: string)
    requires ToLower(search1) == ToLower(search2)
    ensures Filtered(todos, filter, search1) == Filtered(todos, filter, search2)
  {
    JsArray.FilterAgreeing(todos, Shown(filter, search1), Shown(filter, search2));
  }

  /** The search matches exactly the records whose lower-cased text has the lower-cased search at some position. */
  lemma SearchOccurs(search: string, t: Todo)
    ensures MatchesSearch(search, t) <==> exists i :: OccursAt(ToLower(t.text), ToLower(search), i)
  {
    assert MatchesSearch(search, t) == Includes(ToLower(t.text), ToLower(search));
    IncludesOccurs(ToLower(t.text), ToLower(search));
  }

  // ---------------------------------------------------------------------
  // A worked example

  /**
   * Add "Buy milk" (low, Shopping), add "Call dentist" (high, Health),
   * toggle the first: two records, one active and one completed, and the
   * active view shows only "Call dentist".
   */
  lemma Scenario(milk: Id, dentist: Id, t0: Timestamp, t1: Timestamp)
    requires milk != dentist
    ensures var s0 := AddTodo([], milk, "Buy milk", Low, "Shopping", t0);
      var s1 := AddTodo(s0, dentist, "Call dentist", High, "Health", t1);
      var s2 := ToggleTodo(s1, milk);
      GetStats(s2) == Stats(2, 1, 1) &&
      |Filtered(s2, Active, "")| == 1 && Filtered(s2, Active, "")[0].text == "Call dentist"
  {
    var a := Todo(milk, "Buy milk", false, Low, t0, "Shopping");
    var b := Todo(dentist, "Call dentist", false, High, t1, "Health");
    ScenarioAdds(milk, dentist, t0, t1);
    ScenarioToggle(a, b);
    var s2 := [b, a.(completed := true)];
    ScenarioCounts(b, a.(completed := true));
    FilteredActive(s2);
  }

  /** Toggling the older of two records with different ids completes it alone. */
  lemma ScenarioToggle(a: Todo, b: Todo)
    requires a.id != b.id && !a.completed
    ensures ToggleTodo([b, a], a.id) == [b, a.(completed := true)]
  {
  }

  /** One active and one completed record: the counts and what clearing keeps. */
  lemma ScenarioCounts(b: Todo, a: Todo)
    requires !b.completed && a.completed
    ensures GetStats([b, a]) == Stats(2, 1, 1)
    ensures ClearCompleted([b, a]) == [b]
  {
    assert [b, a][1..] == [a];
    assert JsArray.Filter([a], IsActive) == [];
    assert JsArray.Filter([a], IsDone) == [a];
  }

  /** The two adds of the worked example build the expected two-record list. */
  lemma ScenarioAdds(milk: Id, dentist: Id, t0: Timestamp, t1: Timestamp)
    ensures var s0 := AddTodo([], milk, "Buy milk", Low, "Shopping", t0);
      AddTodo(s0, dentist, "Call dentist", High, "Health", t1) ==
        [Todo(dentist, "Call dentist", false, High, t1, "Health"),
         Todo(milk, "Buy milk", false, Low, t0, "Shopping")]
  {
    TrimTrimmed("Buy milk");
    TrimTrimmed("Call dentist");
  }
}
