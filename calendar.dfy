/** The calendar page: a store from date strings to ordered lists of events,
    one draft form that creates or edits an event, the category colour table
    and the month grid. */
module CalendarPage {
  import opened Wrappers
  import opened Text

  const Study: string := "공부"
  const Exercise: string := "운동"
  const Leisure: string := "여가"
  /** The category whose colour and name the user types in per event. */
  const Custom: string := "직접입력"
  const Medium: string := "중"
  const DefaultCustomColor: string := "#10b981"
  const UnknownColor: string := "#9ca3af"

  /** The `categories` table: a fixed colour for each named category, and no
      colour for the custom one. */
  const Categories: map<string, Option<string>> :=
    map[Study := Some("#3b82f6"), Exercise := Some("#ef4444"), Leisure := Some("#f59e0b"), Custom := None]

  /** One calendar entry; the draft form has the same shape, with `id` empty
      while a new event is being written. */
  datatype Event = Event(
    id: Option<int>,
    date: string,
    category: string,
    customCategoryName: string,
    customColor: string,
    title: string,
    importance: string,
    summary: string,
    time: string)

  type Store = map<string, seq<Event>>

  /** The blank draft for `date`: the literal the page writes at each reset. */
  function DefaultDraft(date: string): Event {
    Event(None, date, Study, "", DefaultCustomColor, "", Medium, "", "")
  }

  /** The colour an event is drawn with. */
  function CategoryColor(ev: Event): (color: string)
    ensures ev.category == Study ==> color == "#3b82f6"
    ensures ev.category == Exercise ==> color == "#ef4444"
    ensures ev.category == Leisure ==> color == "#f59e0b"
    ensures ev.category == Custom ==> color == if ev.customColor == "" then DefaultCustomColor else ev.customColor
    ensures ev.category !in {Study, Exercise, Leisure, Custom} ==> color == UnknownColor
  {
    if ev.category in Categories && Categories[ev.category].Some? then Categories[ev.category].value
    else if ev.category == Custom then (if ev.customColor != "" then ev.customColor else DefaultCustomColor)
    else UnknownColor
  }

  /** The events filed under `date`, or none when the key is absent. */
  function EventsOn(events: Store, date: string): seq<Event> {
    if date in events then events[date] else []
  }

  /** `findIndex` by id: the first position holding `id`, or -1. */
  function FindIndex(b: seq<Event>, id: int): (r: int)
    ensures -1 <= r < |b|
    ensures r == -1 <==> forall j | 0 <= j < |b| :: b[j].id != Some(id)
    ensures 0 <= r ==> b[r].id == Some(id) && forall j | 0 <= j < r :: b[j].id != Some(id)
  {
    if b == [] then -1
    else if b[0].id == Some(id) then 0
    else
      var k := FindIndex(b[1..], id);
      if k == -1 then -1 else k + 1
  }

  /** The bucket after saving `form` into it: a draft without id is appended
      with `freshId`; a draft with an id replaces the first event with that id,
      or leaves the bucket as it is when there is none. */
  function UpsertBucket(b: seq<Event>, form: Event, freshId: int): seq<Event> {
    match form.id
    case None => b + [form.(id := Some(freshId))]
    case Some(id) =>
      var k := FindIndex(b, id);
      if k >= 0 then b[k := form] else b
  }

  /** `filter((e) => e.id !== id)`. */
  function Without(b: seq<Event>, id: Option<int>): (r: seq<Event>)
    ensures |r| <= |b|
  {
    if b == [] then []
    else (if b[0].id != id then [b[0]] else []) + Without(b[1..], id)
  }

  /** The filter keeps exactly the events whose id differs, each as often as
      it occurs in the bucket. */
  lemma {:induction false} WithoutCounts(b: seq<Event>, id: Option<int>)
    ensures forall e :: e in Without(b, id) <==> e in b && e.id != id
    ensures forall e :: multiset(Without(b, id))[e] == if e.id == id then 0 else multiset(b)[e]
  {
    if b != [] {
      WithoutCounts(b[1..], id);
      assert b == [b[0]] + b[1..];
    }
  }

  /** The store after `saveEvent` succeeds. */
  function SaveTo(events: Store, form: Event, freshId: int): Store {
    events[form.date := UpsertBucket(EventsOn(events, form.date), form, freshId)]
  }

  /** The store after `deleteEvent(id)` while the form shows `date`. */
  function DeleteFrom(events: Store, date: string, id: Option<int>): Store {
    events[date := Without(EventsOn(events, date), id)]
  }

  // ---------------------------------------------------------------------
  // What a save does to the store

  /** A new draft is appended, with the fresh id, after the bucket's events. */
  lemma SaveNewAppends(events: Store, form: Event, freshId: int)
    requires form.id.None?
    ensures
      var before, after := EventsOn(events, form.date), SaveTo(events, form, freshId)[form.date];
      |after| == |before| + 1 && after[..|before|] == before && after[|before|] == form.(id := Some(freshId))
  {
  }

  /** A draft with an id found in its date's bucket replaces the first event
      with that id in place. */
  lemma SaveExistingReplaces(events: Store, form: Event, freshId: int, k: nat)
    requires form.id.Some?
    requires var b := EventsOn(events, form.date);
      k < |b| && b[k].id == form.id && forall j | 0 <= j < k :: b[j].id != form.id
    ensures
      var before, after := EventsOn(events, form.date), SaveTo(events, form, freshId)[form.date];
      |after| == |before| && after[k] == form && forall j | 0 <= j < |before| && j != k :: after[j] == before[j]
  {
  }

  /** A draft whose id is not in its date's bucket leaves that bucket as it
      was (the key is created, empty, when it was absent). */
  lemma SaveUnknownIdKeepsBucket(events: Store, form: Event, freshId: int)
    requires form.id.Some?
    requires forall e | e in EventsOn(events, form.date) :: e.id != form.id
    ensures form.date in SaveTo(events, form, freshId)
    ensures SaveTo(events, form, freshId)[form.date] == EventsOn(events, form.date)
  {
    var b := EventsOn(events, form.date);
    assert forall j | 0 <= j < |b| :: b[j] in b;
  }

  /** A save touches no bucket but the draft's date, and that key is present
      afterwards. */
  lemma SaveTouchesOneBucket(events: Store, form: Event, freshId: int)
    ensures var after := SaveTo(events, form, freshId);
      after.Keys == events.Keys + {form.date} && forall d | d in events && d != form.date :: after[d] == events[d]
  {
  }

  /** Changing the date of an event being edited clears its id, so the save
      copies it, with a fresh id, to the new date and leaves the original
      where it was. */
  lemma DateChangeCopies(events: Store, form: Event, newDate: string, freshId: int)
    requires form.date != newDate
    ensures
      var moved := form.(date := newDate, id := None);
      var after := SaveTo(events, moved, freshId);
      EventsOn(after, form.date) == EventsOn(events, form.date)
      && after[newDate] == EventsOn(events, newDate) + [moved.(id := Some(freshId))]
  {
  }

  // ---------------------------------------------------------------------
  // What a delete does to the store

  /** Filtering distributes over concatenation, so it keeps the order. */
  lemma {:induction false} WithoutConcat(a: seq<Event>, b: seq<Event>, id: Option<int>)
    ensures Without(a + b, id) == Without(a, id) + Without(b, id)
  {
    if a == [] {
      assert a + b == b;
    } else {
      assert (a + b)[1..] == a[1..] + b;
      WithoutConcat(a[1..], b, id);
    }
  }

  /** Deleting an id that is not in the bucket changes nothing. */
  lemma {:induction false} WithoutAbsent(b: seq<Event>, id: Option<int>)
    requires forall j | 0 <= j < |b| :: b[j].id != id
    ensures Without(b, id) == b
  {
    if b != [] {
      WithoutAbsent(b[1..], id);
      assert b == [b[0]] + b[1..];
    }
  }

  /** A delete leaves the form's bucket holding exactly the events with
      another id, keeps that key, and touches no other bucket. */
  lemma DeleteTouchesOneBucket(events: Store, date: string, id: Option<int>)
    ensures var after := DeleteFrom(events, date, id);
      && after.Keys == events.Keys + {date}
      && (forall e :: e in after[date] <==> e in EventsOn(events, date) && e.id != id)
      && forall d | d in events && d != date :: after[d] == events[d]
  {
    WithoutCounts(EventsOn(events, date), id);
  }

  // ---------------------------------------------------------------------
  // Identifiers stay unique

  function IdsOf(b: seq<Event>): set<Option<int>> {
    set e | e in b :: e.id
  }

  ghost predicate DistinctIds(b: seq<Event>) {
    forall i, j | 0 <= i < j < |b| :: b[i].id != b[j].id
  }

  /** Every stored event has an id and no id occurs twice in the whole store. */
  ghost predicate IdsUnique(events: Store) {
    && (forall d | d in events :: DistinctIds(events[d]) && None !in IdsOf(events[d]))
    && (forall d1, d2 | d1 in events && d2 in events && d1 != d2 :: IdsOf(events[d1]) !! IdsOf(events[d2]))
  }

  /** The id a new event receives is used nowhere in the store. */
  ghost predicate IsFreshId(events: Store, freshId: int) {
    forall d | d in events :: Some(freshId) !in IdsOf(events[d])
  }

  lemma DistinctTail(b: seq<Event>)
    requires b != [] && DistinctIds(b)
    ensures DistinctIds(b[1..]) && b[0].id !in IdsOf(b[1..])
  {
    forall e | e in b[1..] ensures e.id != b[0].id {
      var j :| 0 <= j < |b[1..]| && b[1..][j] == e;
      assert b[j + 1] == e;
    }
  }

  lemma DistinctCons(x: Event, t: seq<Event>)
    requires DistinctIds(t) && x.id !in IdsOf(t)
    ensures DistinctIds([x] + t)
  {
    var r := [x] + t;
    forall i, j | 0 <= i < j < |r| ensures r[i].id != r[j].id {
      if i == 0 {
        assert r[j] in t;
      } else {
        assert r[i] == t[i - 1] && r[j] == t[j - 1];
      }
    }
  }

  lemma {:induction false} WithoutDistinct(b: seq<Event>, id: Option<int>)
    requires DistinctIds(b)
    ensures DistinctIds(Without(b, id)) && IdsOf(Without(b, id)) <= IdsOf(b)
  {
    if b != [] {
      var rest := Without(b[1..], id);
      DistinctTail(b);
      WithoutDistinct(b[1..], id);
      WithoutCounts(b[1..], id);
      if b[0].id != id {
        assert b[0].id !in IdsOf(rest);
        DistinctCons(b[0], rest);
      } else {
        assert Without(b, id) == rest;
      }
    }
  }

  lemma UpsertIds(b: seq<Event>, form: Event, freshId: int)
    requires DistinctIds(b) && None !in IdsOf(b) && Some(freshId) !in IdsOf(b)
    ensures var r := UpsertBucket(b, form, freshId);
      DistinctIds(r) && None !in IdsOf(r) && IdsOf(r) <= IdsOf(b) + {Some(freshId)}
  {
    var r := UpsertBucket(b, form, freshId);
    if form.id.None? {
      forall i, j | 0 <= i < j < |r| ensures r[i].id != r[j].id {
        if j == |b| {
          assert b[i] in b;
        }
      }
      forall e | e in r ensures e.id in IdsOf(b) + {Some(freshId)} {
        var i :| 0 <= i < |r| && r[i] == e;
        if i < |b| { assert b[i] in b; }
      }
    } else {
      var k := FindIndex(b, form.id.value);
      if k >= 0 {
        forall i | 0 <= i < |r| ensures r[i].id == b[i].id {
        }
        forall e | e in r ensures e.id in IdsOf(b) {
          var i :| 0 <= i < |r| && r[i] == e;
          assert b[i] in b;
        }
      }
    }
  }

  /** Saving with a fresh id keeps every id unique. */
  lemma SaveKeepsIdsUnique(events: Store, form: Event, freshId: int)
    requires IdsUnique(events) && IsFreshId(events, freshId)
    ensures IdsUnique(SaveTo(events, form, freshId))
  {
    var b := EventsOn(events, form.date);
    UpsertIds(b, form, freshId);
  }

  /** Deleting keeps every id unique. */
  lemma DeleteKeepsIdsUnique(events: Store, date: string, id: Option<int>)
    requires IdsUnique(events)
    ensures IdsUnique(DeleteFrom(events, date, id))
  {
    WithoutDistinct(EventsOn(events, date), id);
  }

  // ---------------------------------------------------------------------
  // The month grid

  /** `calendarDays`: `startDay` empty cells, then the days 1 to
      `daysInMonth` of the month. */
  method CalendarDays(startDay: nat, daysInMonth: nat) returns (days: seq<Option<nat>>)
    ensures |days| == startDay + daysInMonth
    ensures forall i | 0 <= i < startDay :: days[i] == None
    ensures forall i | startDay <= i < |days| :: days[i] == Some(i - startDay + 1)
  {
    days := [];
    var i := 0;
    while i < startDay
      invariant 0 <= i <= startDay
      invariant days == seq(i, _ => None)
    {
      days := days + [None];
      i := i + 1;
    }
    var d := 1;
    while d <= daysInMonth
      invariant 1 <= d <= daysInMonth + 1
      invariant |days| == startDay + d - 1
      invariant forall j | 0 <= j < startDay :: days[j] == None
      invariant forall j | startDay <= j < |days| :: days[j] == Some(j - startDay + 1)
    {
      days := days + [Some(d)];
      d := d + 1;
    }
  }

  // ---------------------------------------------------------------------
  // The page state

  class CalendarState {
    /** The store, loaded as it was saved. */
    var events: Store
    /** The draft form. */
    var form: Event
    /** The highlighted day of the grid. */
    var selectedDate: string

    /** Every event id is unique across the whole store. */
    ghost predicate Valid()
      reads this
    {
      IdsUnique(events)
    }

    constructor (saved: Store, today: string)
      ensures events == saved && form == DefaultDraft(today) && selectedDate == today
      ensures Valid() <==> IdsUnique(saved)
    {
      events := saved;
      form := DefaultDraft(today);
      selectedDate := today;
    }

    /** The list shown beside the grid: the bucket of the form's date, or
        nothing when that date has no bucket. */
    function DayEvents(): (r: seq<Event>)
      reads this
      ensures form.date in events ==> r == events[form.date]
      ensures form.date !in events ==> r == []
    {
      EventsOn(events, form.date)
    }

    /** `saveEvent`: a blank title leaves everything as it was (the alert);
        otherwise the draft is saved into its date's bucket and the form is
        reset, keeping the date. */
    method SaveEvent(freshId: int) returns (saved: bool)
      modifies this
      ensures saved == (Trim(old(form.title)) != "")
      ensures saved ==> events == SaveTo(old(events), old(form), freshId) && form == DefaultDraft(old(form.date))
      ensures !saved ==> events == old(events) && form == old(form)
      ensures selectedDate == old(selectedDate)
      ensures old(Valid()) && IsFreshId(old(events), freshId) ==> Valid()
    {
      var draft, store := form, events;
      if Trim(draft.title) == "" {
        return false;
      }
      var dayEvts := EventsOn(store, draft.date);
      match draft.id {
        case Some(id) =>
          var idx := FindIndex(dayEvts, id);
          if idx >= 0 {
            dayEvts := dayEvts[idx := draft];
          }
        case None =>
          dayEvts := dayEvts + [draft.(id := Some(freshId))];
      }
      assert dayEvts == UpsertBucket(EventsOn(store, draft.date), draft, freshId);
      if IdsUnique(store) && IsFreshId(store, freshId) {
        SaveKeepsIdsUnique(store, draft, freshId);
      }
      events := store[draft.date := dayEvts];
      form := DefaultDraft(draft.date);
      saved := true;
    }

    /** `deleteEvent(id)`: the events with that id leave the form's bucket;
        the form is reset only when it was showing that id. */
    method DeleteEvent(id: Option<int>)
      modifies this
      ensures events == DeleteFrom(old(events), old(form.date), id)
      ensures form == if old(form.id) == id then DefaultDraft(old(form.date)) else old(form)
      ensures selectedDate == old(selectedDate)
      ensures old(Valid()) ==> Valid()
    {
      if IdsUnique(events) {
        DeleteKeepsIdsUnique(events, form.date, id);
      }
      events := events[form.date := Without(EventsOn(events, form.date), id)];
      if form.id == id {
        form := DefaultDraft(form.date);
      }
    }

    /** `editEvent`: the form becomes a copy of the event. */
    method EditEvent(ev: Event)
      modifies this
      ensures form == ev && events == old(events) && selectedDate == old(selectedDate)
    {
      form := ev;
    }

    /** A click on a day: that day is selected and the draft is reset to a
        new event on it. */
    method SelectDay(date: string)
      modifies this
      ensures selectedDate == date && form == DefaultDraft(date) && form.id == None
      ensures events == old(events)
    {
      selectedDate := date;
      form := form.(date := date, id := None, title := "", summary := "", time := "",
                    importance := Medium, category := Study, customCategoryName := "",
                    customColor := DefaultCustomColor);
    }

    /** The date input: the draft moves to `date` and stops naming the
        event it was loaded from. */
    method ChangeDate(date: string)
      modifies this
      ensures form == old(form).(date := date, id := None)
      ensures events == old(events) && selectedDate == old(selectedDate)
    {
      form := form.(date := date, id := None);
    }

    /** The category dropdown: only the category changes. */
    method SelectCategory(category: string)
      modifies this
      ensures form == old(form).(category := category)
      ensures events == old(events) && selectedDate == old(selectedDate)
    {
      form := form.(category := category);
    }
  }
}
