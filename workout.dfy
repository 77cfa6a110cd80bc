/** The workout log: an ordered list of dated activities with add, edit by
    index and delete by index, and the per-day counts for a seven-day chart. */
module WorkoutPage {
  import opened Wrappers
  import opened Lists

  datatype Workout = Workout(date: string, activity: string)

  /** The option of the select box that reveals the free-text input. */
  const CustomOption: string := "직접 입력"

  /** `predefined`: the options of the select box. */
  const Predefined: seq<string> := ["데드리프트", "벤치프레스", "스쿼트", "러닝", CustomOption]

  /** The activity the form describes: the free text when the custom option
      is selected, the selected option otherwise. */
  function ActivityOf(input: string, customInput: string): string {
    if input == CustomOption then customInput else input
  }

  /** What `handleEdit` puts in the select box and the free-text input for an
      activity. */
  function EditSelection(activity: string): (sel: (string, string))
    ensures sel.0 in Predefined
  {
    if activity in Predefined then (activity, "") else (CustomOption, activity)
  }

  /** Loading an activity into the form and reading it back gives the same
      activity, except for an activity spelled like the custom option itself,
      which reads back as empty. */
  lemma EditSelectionRoundTrip(activity: string)
    ensures var sel := EditSelection(activity);
      && (ActivityOf(sel.0, sel.1) == activity <==> activity != CustomOption)
      && (activity == CustomOption ==> ActivityOf(sel.0, sel.1) == "")
  {
  }

  // ---------------------------------------------------------------------
  // The weekly chart

  /** `workouts.filter((w) => w.date === date).length`. */
  function CountOn(workouts: seq<Workout>, date: string): (n: nat)
    ensures n <= |workouts|
    ensures n == 0 <==> forall i | 0 <= i < |workouts| :: workouts[i].date != date
    ensures n == |workouts| <==> forall i | 0 <= i < |workouts| :: workouts[i].date == date
  {
    if workouts == [] then 0
    else
      var rest := CountOn(workouts[1..], date);
      assert forall i | 1 <= i < |workouts| :: workouts[i] == workouts[1..][i - 1];
      (if workouts[0].date == date then 1 else 0) + rest
  }

  /** `summary`: the reduce over the seven days that stores each day's count. */
  method Summary(workouts: seq<Workout>, days: seq<string>) returns (summary: map<string, nat>)
    ensures summary.Keys == set d | d in days
    ensures forall d | d in summary :: summary[d] == CountOn(workouts, d)
  {
    summary := map[];
    var i := 0;
    while i < |days|
      invariant 0 <= i <= |days|
      invariant summary.Keys == set d | d in days[..i]
      invariant forall d | d in summary :: summary[d] == CountOn(workouts, d)
    {
      assert days[..i + 1] == days[..i] + [days[i]];
      summary := summary[days[i] := CountOn(workouts, days[i])];
      i := i + 1;
    }
    assert days[..i] == days;
  }

  function TotalOn(workouts: seq<Workout>, days: seq<string>): nat {
    if days == [] then 0 else CountOn(workouts, days[0]) + TotalOn(workouts, days[1..])
  }

  ghost predicate Distinct(days: seq<string>) {
    forall i, j | 0 <= i < j < |days| :: days[i] != days[j]
  }

  /** One workout is counted on at most one of several distinct days. */
  lemma {:induction false} OneWorkoutOneDay(w: Workout, days: seq<string>)
    requires Distinct(days)
    ensures TotalOn([w], days) <= 1
    ensures w.date !in days ==> TotalOn([w], days) == 0
  {
    if days != [] {
      var rest := days[1..];
      assert Distinct(rest) by {
        forall i, j | 0 <= i < j < |rest| ensures rest[i] != rest[j] {
          assert rest[i] == days[i + 1] && rest[j] == days[j + 1];
        }
      }
      OneWorkoutOneDay(w, rest);
      assert [w][1..] == [];
      if w.date == days[0] {
        assert w.date !in rest by {
          forall j | 0 <= j < |rest| ensures rest[j] != w.date {
            assert rest[j] == days[j + 1];
          }
        }
      }
    }
  }

  lemma {:induction false} TotalSplit(w: Workout, rest: seq<Workout>, days: seq<string>)
    ensures TotalOn([w] + rest, days) == TotalOn([w], days) + TotalOn(rest, days)
  {
    if days != [] {
      TotalSplit(w, rest, days[1..]);
      assert ([w] + rest)[1..] == rest && [w][1..] == [];
    }
  }

  /** For distinct days the chart's counts add up to at most the number of
      workouts. */
  lemma {:induction false} CountsBounded(workouts: seq<Workout>, days: seq<string>)
    requires Distinct(days)
    ensures TotalOn(workouts, days) <= |workouts|
  {
    if workouts == [] {
      ZeroTotal(days);
    } else {
      var w, rest := workouts[0], workouts[1..];
      assert workouts == [w] + rest;
      CountsBounded(rest, days);
      OneWorkoutOneDay(w, days);
      TotalSplit(w, rest, days);
    }
  }

  lemma {:induction false} ZeroTotal(days: seq<string>)
    ensures TotalOn([], days) == 0
  {
    if days != [] {
      ZeroTotal(days[1..]);
    }
  }

  // ---------------------------------------------------------------------
  // The page state

  class WorkoutState {
    var workouts: seq<Workout>
    /** The select box. */
    var input: string
    var date: string
    var customInput: string
    var editIndex: Option<int>

    /** The index being edited names a record, and every record has a date
        and an activity. */
    ghost predicate Valid()
      reads this
    {
      && (editIndex.Some? ==> 0 <= editIndex.value < |workouts|)
      && forall i | 0 <= i < |workouts| :: workouts[i].date != "" && workouts[i].activity != ""
    }

    constructor ()
      ensures Valid()
      ensures workouts == [] && input == "" && date == "" && customInput == "" && editIndex == None
    {
      workouts := [];
      input := "";
      date := "";
      customInput := "";
      editIndex := None;
    }

    /** `handleAdd`: with an empty activity or date nothing changes;
        otherwise the record replaces the one being edited, or is appended,
        and the inputs are cleared. */
    method HandleAdd() returns (added: bool)
      requires Valid()
      modifies this
      ensures Valid()
      ensures added == (ActivityOf(old(input), old(customInput)) != "" && old(date) != "")
      ensures !added ==>
        && workouts == old(workouts) && input == old(input) && date == old(date)
        && customInput == old(customInput) && editIndex == old(editIndex)
      ensures added ==>
        var record := Workout(old(date), ActivityOf(old(input), old(customInput)));
        && workouts == (if old(editIndex).Some? then old(workouts)[old(editIndex).value := record]
                        else old(workouts) + [record])
        && editIndex == None && date == "" && input == "" && customInput == ""
    {
      var activity := ActivityOf(input, customInput);
      if activity == "" || date == "" {
        return false;
      }
      var newRecord := Workout(date, activity);
      if editIndex.Some? {
        workouts := workouts[editIndex.value := newRecord];
        editIndex := None;
      } else {
        workouts := workouts + [newRecord];
      }
      date := "";
      input := "";
      customInput := "";
      added := true;
    }

    /** `handleEdit(index)`: the record is loaded into the inputs. */
    method HandleEdit(index: nat)
      requires Valid() && index < |workouts|
      modifies this
      ensures Valid()
      ensures workouts == old(workouts) && editIndex == Some(index)
      ensures date == workouts[index].date && (input, customInput) == EditSelection(workouts[index].activity)
    {
      var w := workouts[index];
      date := w.date;
      input := if w.activity in Predefined then w.activity else CustomOption;
      customInput := if w.activity in Predefined then "" else w.activity;
      editIndex := Some(index);
    }

    /** `handleDelete(index)`: the record at `index` goes and nothing is being
        edited any more. */
    method HandleDelete(index: int)
      requires Valid()
      modifies this
      ensures Valid()
      ensures workouts == DropIndex(old(workouts), index) && editIndex == None
      ensures input == old(input) && date == old(date) && customInput == old(customInput)
    {
      workouts := DropIndex(workouts, index);
      editIndex := None;
    }
  }

  /** Editing a record and adding at once saves the same record back in its
      place, unless its activity is spelled like the custom option. */
  method EditThenAdd(page: WorkoutState, index: nat) returns (added: bool)
    requires page.Valid() && index < |page.workouts|
    modifies page
    ensures page.Valid()
    ensures added <==> old(page.workouts)[index].activity != CustomOption
    ensures added ==> page.workouts == old(page.workouts) && page.editIndex == None
    ensures !added ==> page.workouts == old(page.workouts) && page.editIndex == Some(index)
  {
    page.HandleEdit(index);
    EditSelectionRoundTrip(page.workouts[index].activity);
    added := page.HandleAdd();
    if added {
      assert page.workouts == old(page.workouts)[index := old(page.workouts)[index]];
    }
  }
}
