/**
 The task store: a map from a calendar date to the ordered list of task texts
 entered for that date (insertion order is display order). The three
 operations below are the map values the task handlers of the calendar
 component produce; together they keep the store's one invariant, that a date
 present in the map always has at least one task.
 */
module Store {
  import opened Wrappers

  /** A calendar date, the key of the store. The component keys the map by the
      date's "YYYY-MM-DD" text; that text determines the date and is determined
      by it, so the model keys by the date itself. */
  datatype DateKey = DateKey(year: int, month: int, day: int)

  type Task = string

  type TaskMap = map<DateKey, seq<Task>>

  /** The store invariant: every date present has a non-empty list. */
  predicate Valid(m: TaskMap) {
    forall d :: d in m ==> m[d] != []
  }

  /** The tasks of date d, the empty list when d has none. In a valid store
      a date has tasks exactly when it is a key. */
  function TasksOn(m: TaskMap, d: DateKey): (r: seq<Task>)
    ensures Valid(m) ==> (r != [] <==> d in m)
  {
    if d in m then m[d] else []
  }

  /** Adding a task appends it to the end of its date's list, starting a
      one-element list for a date that had none; no other date changes. */
  function Add(m: TaskMap, d: DateKey, t: Task): (r: TaskMap)
    ensures r.Keys == m.Keys + {d}
    ensures r[d] == TasksOn(m, d) + [t]
    ensures d !in m ==> r[d] == [t]
    ensures forall k :: k in m && k != d ==> r[k] == m[k]
    ensures Valid(m) ==> Valid(r)
  {
    m[d := TasksOn(m, d) + [t]]
  }

  /** Updating replaces the task at index i of date d and nothing else: the
      list keeps its length and every other entry, and every other date keeps
      its list. */
  function Update(m: TaskMap, d: DateKey, i: nat, t: Task): (r: TaskMap)
    requires d in m && i < |m[d]|
    ensures r.Keys == m.Keys
    ensures |r[d]| == |m[d]| && r[d][i] == t
    ensures forall j :: 0 <= j < |m[d]| && j != i ==> r[d][j] == m[d][j]
    ensures forall k :: k in m && k != d ==> r[k] == m[k]
    ensures Valid(m) ==> Valid(r)
  {
    m[d := m[d][i := t]]
  }

  /** The list s without its entry at index i: the entries before i stay where
      they are, those after it move down by one, and exactly one occurrence of
      s[i] is gone. */
  function RemoveAt<T>(s: seq<T>, i: nat): (r: seq<T>)
    requires i < |s|
    ensures |r| == |s| - 1
    ensures forall j :: 0 <= j < i ==> r[j] == s[j]
    ensures forall j :: i <= j < |r| ==> r[j] == s[j + 1]
    ensures multiset(r) + multiset{s[i]} == multiset(s)
  {
    assert s == s[..i] + [s[i]] + s[i + 1..];
    s[..i] + s[i + 1..]
  }

  /** Deleting removes the task at index i of date d; when that was the date's
      last task the date leaves the map. Every other date is untouched. */
  function Delete(m: TaskMap, d: DateKey, i: nat): (r: TaskMap)
    requires d in m && i < |m[d]|
    ensures d in r <==> |m[d]| > 1
    ensures d in r ==> r[d] == RemoveAt(m[d], i)
    ensures forall k :: k != d ==> (k in r <==> k in m)
    ensures forall k :: k in m && k != d ==> r[k] == m[k]
    ensures Valid(m) ==> Valid(r)
  {
    var rest := RemoveAt(m[d], i);
    if rest == [] then m - {d} else m[d := rest]
  }

  /** One store operation as the handlers issue it; indices are positions in
      the date's list as displayed. */
  datatype Op =
    | AddTo(date: DateKey, text: Task)
    | UpdateAt(date: DateKey, index: nat, text: Task)
    | DeleteAt(date: DateKey, index: nat)

  /** The store after op, or None when op names a position the date's list
      does not have (the interface never offers such a position). */
  function Apply(m: TaskMap, op: Op): Option<TaskMap> {
    match op
    case AddTo(d, t) => Some(Add(m, d, t))
    case UpdateAt(d, i, t) =>
      if d in m && i < |m[d]| then Some(Update(m, d, i, t)) else None
    case DeleteAt(d, i) =>
      if d in m && i < |m[d]| then Some(Delete(m, d, i)) else None
  }

  /** The store after the operations ops, in order, starting from m. */
  function Run(m: TaskMap, ops: seq<Op>): Option<TaskMap>
    decreases |ops|
  {
    if ops == [] then Some(m)
    else match Apply(m, ops[0])
      case None => None
      case Some(m') => Run(m', ops[1..])
  }

  /** Any run of operations from a valid store ends in a valid store. */
  lemma {:induction false} RunKeepsValid(m: TaskMap, ops: seq<Op>)
    requires Valid(m)
    ensures Run(m, ops).Some? ==> Valid(Run(m, ops).value)
    decreases |ops|
  {
    if ops != [] {
      match Apply(m, ops[0])
      case None =>
      case Some(m') => RunKeepsValid(m', ops[1..]);
    }
  }

  /** Every store reachable from the empty store satisfies the invariant: no
      date is ever present with an empty list. */
  lemma ReachableIsValid(ops: seq<Op>)
    ensures Run(map[], ops).Some? ==> Valid(Run(map[], ops).value)
  {
    RunKeepsValid(map[], ops);
  }

  /** Deleting every task of a date one at a time, always at index 0, removes
      the date from the store and changes nothing else. */
  lemma {:induction false} DeleteAllRemovesDate(m: TaskMap, d: DateKey)
    requires d in m && m[d] != []
    ensures Run(m, seq(|m[d]|, _ => DeleteAt(d, 0))) == Some(m - {d})
    decreases |m[d]|
  {
    var ops := seq(|m[d]|, _ => DeleteAt(d, 0));
    var m' := Delete(m, d, 0);
    assert ops[0] == DeleteAt(d, 0);
    if |m[d]| == 1 {
      assert ops[1..] == [];
      assert m' == m - {d};
    } else {
      assert ops[1..] == seq(|m'[d]|, _ => DeleteAt(d, 0));
      DeleteAllRemovesDate(m', d);
      assert m' - {d} == m - {d};
    }
  }

  /* The add, edit and delete steps of a session on one date, from the empty
     store back to the empty store; App.Session drives them through the
     handlers. */

  /** Two tasks added to a date with none are listed in the order added. */
  lemma ScenarioAdds(d: DateKey, first: Task, second: Task)
    ensures Add(map[], d, first) == map[d := [first]]
    ensures Add(map[d := [first]], d, second) == map[d := [first, second]]
  {
    var one := map[d := [first]];
    assert [first] + [second] == [first, second];
    assert Add(one, d, second) == one[d := [first, second]];
  }

  /** Replacing the first of two tasks keeps the second in place. */
  lemma ScenarioEdit(d: DateKey, first: Task, second: Task, edited: Task)
    ensures Update(map[d := [first, second]], d, 0, edited) == map[d := [edited, second]]
  {
    assert [first, second][0 := edited] == [edited, second];
  }

  /** Deleting the second and then the only remaining task leaves the empty
      store. */
  lemma ScenarioDeletes(d: DateKey, first: Task, second: Task)
    ensures Delete(map[d := [first, second]], d, 1) == map[d := [first]]
    ensures Delete(map[d := [first]], d, 0) == map[]
  {
    var two := map[d := [first, second]];
    assert RemoveAt(two[d], 1) == [first];
    assert Delete(two, d, 1) == two[d := [first]];
  }
}
