/**
 The calendar component: the current month, the task store, and the selection
 and edit state that the day cells, the task form and the task list drive.
 Each handler of the component is a method; the object invariant Valid()
 carries the store invariant and the promise that an edit in progress names a
 task of the selected date.
 */
module App {
  import opened Wrappers
  import opened Text
  import opened Store

  /** The task the form is editing: its date and its position in that date's
      list. */
  datatype EditTarget = EditTarget(date: DateKey, index: nat)

  class Calendar {
    // The month on display and its layout. The component reads the clock at
    // every render; the model fixes the month when the object is built.
    const year: int
    const month: int
    const daysInMonth: nat
    const startDay: nat

    var selectedDate: Option<DateKey>
    var taskInput: string
    var editingTask: Option<EditTarget>
    var tasks: TaskMap

    /** The object invariant: a real month layout, a valid store, and an edit
        target (when set) naming the selected date and a position its list
        has. */
    ghost predicate Valid()
      reads this
    {
      && 28 <= daysInMonth <= 31 && startDay <= 6
      && Store.Valid(tasks)
      && (editingTask.Some? ==>
            && selectedDate == Some(editingTask.value.date)
            && editingTask.value.date in tasks
            && editingTask.value.index < |tasks[editingTask.value.date]|)
    }

    /** The key of day `day` of the month on display. */
    function KeyOf(day: int): DateKey {
      DateKey(year, month, day)
    }

    /** Starts with nothing selected, an empty draft, no edit, and the store
        saved by an earlier session (the empty store when there is none). */
    constructor (year: int, month: int, daysInMonth: nat, startDay: nat, saved: Option<TaskMap>)
      requires 28 <= daysInMonth <= 31 && startDay <= 6
      requires saved.Some? ==> Store.Valid(saved.value)
      ensures Valid()
      ensures this.year == year && this.month == month
      ensures this.daysInMonth == daysInMonth && this.startDay == startDay
      ensures selectedDate == None && taskInput == [] && editingTask == None
      ensures tasks == if saved.Some? then saved.value else map[]
    {
      this.year, this.month := year, month;
      this.daysInMonth, this.startDay := daysInMonth, startDay;
      selectedDate := None;
      taskInput := [];
      tasks := if saved.Some? then saved.value else map[];
      editingTask := None;
    }

    /** A click on day `day`: selects its date, clears the draft and drops
        any edit in progress; the store is untouched. */
    method DateClick(day: int)
      requires Valid() && 1 <= day <= daysInMonth
      modifies this
      ensures Valid()
      ensures selectedDate == Some(KeyOf(day))
      ensures taskInput == [] && editingTask == None
      ensures tasks == old(tasks)
    {
      selectedDate := Some(KeyOf(day));
      taskInput := [];
      editingTask := None;
    }

    /** Typing in the task field: the draft becomes `text`. */
    method Input(text: string)
      requires Valid()
      modifies this
      ensures Valid()
      ensures taskInput == text
      ensures selectedDate == old(selectedDate) && editingTask == old(editingTask)
      ensures tasks == old(tasks)
    {
      taskInput := text;
    }

    /** Submitting the form. A blank draft changes nothing. Otherwise the
        trimmed draft replaces the task being edited, or is appended to the
        selected date's list when no edit is in progress; then the draft is
        cleared and the edit dropped. */
    method Submit()
      requires Valid() && selectedDate.Some?
      modifies this
      ensures Valid()
      ensures selectedDate == old(selectedDate)
      ensures IsBlank(old(taskInput)) ==>
        && tasks == old(tasks)
        && taskInput == old(taskInput)
        && editingTask == old(editingTask)
      ensures !IsBlank(old(taskInput)) ==>
        && taskInput == []
        && editingTask == None
        && tasks == match old(editingTask)
             case Some(e) => Update(old(tasks), e.date, e.index, Trim(old(taskInput)))
             case None => Add(old(tasks), old(selectedDate).value, Trim(old(taskInput)))
    {
      var trimmed := Trim(taskInput);
      if trimmed == [] {
        return;
      }
      var date := selectedDate.value;
      var newTasks := tasks;
      if editingTask.Some? && editingTask.value.date == date {
        var list := newTasks[date];
        list := list[editingTask.value.index := trimmed];
        newTasks := newTasks[date := list];
      } else {
        if date !in newTasks {
          newTasks := newTasks[date := []];
        }
        newTasks := newTasks[date := newTasks[date] + [trimmed]];
      }
      tasks := newTasks;
      taskInput := [];
      editingTask := None;
    }

    /** A click on the edit icon of the task at `index` of the selected date:
        the draft becomes that task's text and the edit target is set. */
    method Edit(task: string, index: nat)
      requires Valid() && selectedDate.Some?
      requires selectedDate.value in tasks && index < |tasks[selectedDate.value]|
      modifies this
      ensures Valid()
      ensures taskInput == task
      ensures editingTask == Some(EditTarget(old(selectedDate).value, index))
      ensures selectedDate == old(selectedDate) && tasks == old(tasks)
    {
      taskInput := task;
      editingTask := Some(EditTarget(selectedDate.value, index));
    }

    /** A click on the delete icon of the task at `index` of the selected
        date: the task is removed (and the date with it when it was its last),
        the draft is cleared and any edit dropped. */
    method DeleteTask(index: nat)
      requires Valid() && selectedDate.Some?
      requires selectedDate.value in tasks && index < |tasks[selectedDate.value]|
      modifies this
      ensures Valid()
      ensures tasks == Delete(old(tasks), old(selectedDate).value, index)
      ensures taskInput == [] && editingTask == None
      ensures selectedDate == old(selectedDate)
    {
      var date := selectedDate.value;
      var newTasks := tasks;
      var list := newTasks[date];
      list := list[..index] + list[index + 1..];
      assert list == RemoveAt(tasks[date], index);
      newTasks := newTasks[date := list];
      if |newTasks[date]| == 0 {
        newTasks := newTasks - {date};
      }
      tasks := newTasks;
      taskInput := [];
      editingTask := None;
    }
  }

  /** A session of the component, as a client sees it through the handlers'
      contracts: two tasks added to 10 May 2024, the first one edited (its new
      text typed as `typed`, which trims to `edited`), a blank draft ignored,
      both deleted. */
  method Session(first: string, second: string, typed: string, edited: string, blank: string)
    requires first != [] && Trim(first) == first
    requires second != [] && Trim(second) == second
    requires edited != [] && Trim(typed) == edited
    requires Trim(blank) == []
  {
    var c := new Calendar(2024, 5, 31, 3, None);
    var may10 := DateKey(2024, 5, 10);
    ScenarioAdds(may10, first, second);
    ScenarioEdit(may10, first, second, edited);
    ScenarioDeletes(may10, edited, second);
    c.DateClick(10);
    assert c.selectedDate == Some(may10);

    c.Input(first);
    c.Submit();
    assert c.tasks == map[may10 := [first]];

    c.Input(second);
    c.Submit();
    assert c.tasks == map[may10 := [first, second]];

    c.Edit(first, 0);
    c.Input(typed);
    c.Submit();
    assert c.tasks == map[may10 := [edited, second]];

    c.Input(blank);
    c.Submit();
    assert c.tasks == map[may10 := [edited, second]];
    assert c.taskInput == blank;

    c.DeleteTask(1);
    assert c.tasks == map[may10 := [edited]];
    c.DeleteTask(0);
    assert c.tasks == map[];
  }
}
