# LifeControlApp page state, modelled in Dafny

LifeControlApp is a single-page personal tracker with four pages: a calendar
of categorised events, a book/film review list, a diary and a workout log.
Stripped of rendering, each page is a small state machine held in React state
cells. This project models each page as a Dafny class whose fields are the
page's state cells and whose methods are its event handlers. The stores are
the pure values those handlers compute: maps, sequences and records. Lemmas
state what the handlers promise.

- `calendar.dfy` (module `CalendarPage`) holds the category colour table and
  the event store, a map from date string to an ordered list of events. It has
  the draft form with save, delete, edit, day selection and date change, and
  the month grid.
- `review.dfy` (module `ReviewPage`) holds the review list, kept with the
  highest rating first. It has the add/edit form, delete, and the detail view.
- `diary.dfy` (module `DiaryPage`) holds the diary map (one entry per date),
  its open/add/save/delete transitions, and the date-ordered listing.
- `workout.dfy` (module `WorkoutPage`) holds the workout list with add,
  edit-by-index and delete-by-index, the mapping between an activity and the
  (select box, free text) pair, and the per-day counts for the weekly chart.
- Shared pieces:
  - `text.dfy` models JavaScript whitespace and `trim`.
  - `sorting.dfy` models the stable `Array.prototype.sort` with a numeric
    comparator.
  - `lists.dfy` models removing one index (`filter` by index, `splice(i, 1)`).
  - `wrappers.dfy` gives `Option`, used for `null`.

Inputs the pages take from the browser are parameters:
- `Date.now()` is the `freshId` of `SaveEvent`.
- Today's date is the `today` of the constructors and of `HandleAddClick`.
- The month's first weekday and length are the arguments of `CalendarDays`.
- The seven-day list is the `days` of `Summary`.
- The answer to `window.confirm` is the `confirmed` flag.
- The `alert` of `saveEvent` and `saveDiary` on a blank title or entry is a
  `false` result (`saved`) with no state change.
- The silent `return` of the workout page's `handleAdd` on an empty input is a
  `false` result (`added`) with no state change.
- The data read from `localStorage` is the `saved` argument of the constructors.

Two behaviours of the code worth noting:
- The category dropdown changes only `category` (CalendarPage.jsx line 243).
  It does not clear the custom name and colour.
- Editing an event and then changing its date clears `form.id` (line 235).
  Saving then appends a copy with a new id and leaves the original in its old
  bucket. Ids stay unique, and nothing is moved (`DateChangeCopies`).

## Model

| member | source | states |
|---|---|---|
| `CalendarPage.CategoryColor` | LifeControlApp/src/pages/CalendarPage.jsx:108-112 | 공부, 운동 and 여가 give their table colours (lines 4-9). 직접입력 gives the event's own `customColor`, or `#10b981` when that is empty. Any other category gives `#9ca3af`. |
| `Text.TrimStart` | LifeControlApp/src/pages/CalendarPage.jsx:115 | The result is a suffix of the input. |
| `Text.TrimStartSpec` | LifeControlApp/src/pages/CalendarPage.jsx:115 | The part `TrimStart` removes is all whitespace, and what it keeps is empty or starts with a non-whitespace character. |
| `Text.TrimEnd` | LifeControlApp/src/pages/CalendarPage.jsx:115 | The result is a prefix of the input. |
| `Text.TrimEndSpec` | LifeControlApp/src/pages/CalendarPage.jsx:115 | The part `TrimEnd` removes is all whitespace, and what it keeps is empty or ends with a non-whitespace character. |
| `Text.Trim` | LifeControlApp/src/pages/CalendarPage.jsx:115 | The result is never longer than the input. |
| `Text.TrimSpec` | LifeControlApp/src/pages/CalendarPage.jsx:115 | The result is a slice between a blank prefix and a blank suffix, and it neither starts nor ends with whitespace. |
| `Text.TrimEmptyIffBlank` | LifeControlApp/src/pages/DiaryPage.jsx:28 | `!s.trim()` holds exactly when every character of `s` is whitespace. |
| `CalendarPage.FindIndex` | LifeControlApp/src/pages/CalendarPage.jsx:120 | The result is -1 exactly when no event has the id. Otherwise it is the first position holding the id. |
| `CalendarPage.SaveNewAppends` | LifeControlApp/src/pages/CalendarPage.jsx:122-125 | Saving a draft without an id adds exactly one event, with the fresh id, at the end of bucket `form.date`. The earlier entries stay as they were. |
| `CalendarPage.SaveExistingReplaces` | LifeControlApp/src/pages/CalendarPage.jsx:118-121 | Saving a draft whose id is in bucket `form.date` replaces the first event with that id by the draft. The length and every other position are unchanged. |
| `CalendarPage.SaveUnknownIdKeepsBucket` | LifeControlApp/src/pages/CalendarPage.jsx:118-125 | Saving a draft whose id is not in bucket `form.date` leaves that bucket's contents as they were. The key is present afterwards. |
| `CalendarPage.SaveTouchesOneBucket` | LifeControlApp/src/pages/CalendarPage.jsx:125 | A save adds the key `form.date` and leaves every other bucket untouched. |
| `CalendarPage.DateChangeCopies` | LifeControlApp/src/pages/CalendarPage.jsx:235 | Changing the date of an event being edited and then saving leaves the original bucket as it was. It appends a fresh-id copy to the new date's bucket. |
| `CalendarPage.Without` | LifeControlApp/src/pages/CalendarPage.jsx:144 | The result is never longer than the bucket. |
| `CalendarPage.WithoutCounts` | LifeControlApp/src/pages/CalendarPage.jsx:144 | The result holds exactly the events whose id differs from the one given, each as often as in the bucket. |
| `CalendarPage.WithoutConcat` | LifeControlApp/src/pages/CalendarPage.jsx:144 | The filter distributes over concatenation, so the survivors keep their original order. |
| `CalendarPage.WithoutAbsent` | LifeControlApp/src/pages/CalendarPage.jsx:144 | Deleting an id that is not in the bucket changes nothing. |
| `CalendarPage.DeleteTouchesOneBucket` | LifeControlApp/src/pages/CalendarPage.jsx:141-146 | After a delete, bucket `form.date` holds exactly the old events with another id. The key stays even when the bucket is empty, and other buckets are untouched. |
| `CalendarPage.WithoutDistinct` | LifeControlApp/src/pages/CalendarPage.jsx:144 | Filtering keeps the ids of a bucket distinct and adds no id. |
| `CalendarPage.UpsertIds` | LifeControlApp/src/pages/CalendarPage.jsx:118-124 | Upserting into a bucket with distinct ids, using an unused fresh id, keeps the ids distinct and adds no id except the fresh one. |
| `CalendarPage.SaveKeepsIdsUnique` | LifeControlApp/src/pages/CalendarPage.jsx:117-126 | If every stored event has an id, no id occurs twice in the store, and the `Date.now()` id is unused, then the same holds after the save. |
| `CalendarPage.DeleteKeepsIdsUnique` | LifeControlApp/src/pages/CalendarPage.jsx:141-146 | A delete keeps store-wide id uniqueness. |
| `CalendarPage.CalendarDays` | LifeControlApp/src/pages/CalendarPage.jsx:98-100 | The grid has length `startDay + daysInMonth`. Its first `startDay` cells are empty and the rest are days 1 to `daysInMonth` in increasing order. |
| `CalendarPage.CalendarState.constructor` | LifeControlApp/src/pages/CalendarPage.jsx:73-90 | The store is the loaded one and the form is the default draft for today. The page starts valid (ids unique across the store) exactly when the loaded store is. |
| `CalendarPage.CalendarState.SaveEvent` | LifeControlApp/src/pages/CalendarPage.jsx:114-139 | A blank title leaves the store and the form unchanged. Otherwise the store becomes `SaveTo` of the old store and draft, and the form becomes the default draft (no id, 공부, 중, blank fields, `#10b981`) with the date kept. Ids stay unique when the `Date.now()` id is not already in the store. |
| `CalendarPage.CalendarState.DeleteEvent` | LifeControlApp/src/pages/CalendarPage.jsx:141-160 | The store loses the id from bucket `form.date`. The form is reset only when `form.id` equals the deleted id. Ids stay unique. |
| `CalendarPage.CalendarState.DayEvents` | LifeControlApp/src/pages/CalendarPage.jsx:106 | The list beside the grid is the bucket of the form's date, and empty when that date has no bucket. |
| `CalendarPage.CalendarState.EditEvent` | LifeControlApp/src/pages/CalendarPage.jsx:162-164 | The form becomes the event and nothing else changes. |
| `CalendarPage.CalendarState.SelectDay` | LifeControlApp/src/pages/CalendarPage.jsx:189-202 | The day is selected and the draft is the default one on that date, without an id. |
| `CalendarPage.CalendarState.ChangeDate` | LifeControlApp/src/pages/CalendarPage.jsx:235 | The draft takes the new date and loses its id. All other fields stay. |
| `CalendarPage.CalendarState.SelectCategory` | LifeControlApp/src/pages/CalendarPage.jsx:243 | Only the draft's category changes. |
| `Sorting.Insert` | LifeControlApp/src/pages/ReviewPage.jsx:41 | Inserting makes the sequence one element longer. |
| `Sorting.InsertPerm` | LifeControlApp/src/pages/ReviewPage.jsx:41 | Inserting adds exactly `x` to the multiset of elements and loses none. |
| `Sorting.InsertSorted` | LifeControlApp/src/pages/ReviewPage.jsx:41 | Inserting into a sorted sequence keeps it sorted. |
| `Sorting.Sort` | LifeControlApp/src/pages/ReviewPage.jsx:36 | The result is sorted by the key and is a permutation of the input. |
| `Sorting.SortStable` | LifeControlApp/src/pages/ReviewPage.jsx:36 | For every key, the elements with that key appear in the result in their input order. |
| `Sorting.SortOfSorted` | LifeControlApp/src/pages/ReviewPage.jsx:41 | Sorting an already sorted sequence returns it unchanged. |
| `Lists.DropIndex` | LifeControlApp/src/pages/ReviewPage.jsx:52-53 | For an index inside the list, exactly that element goes: the elements before stay in place and the ones after shift left by one. An index outside the list (as `filter` at WorkoutPage.jsx line 41 treats it) removes nothing. |
| `ReviewPage.SortByRatingSpec` | LifeControlApp/src/pages/ReviewPage.jsx:36-41 | The re-sort puts the highest rating first and keeps every review. |
| `ReviewPage.SortByRatingStable` | LifeControlApp/src/pages/ReviewPage.jsx:36-41 | The re-sort keeps reviews of equal rating in their relative order. |
| `ReviewPage.SortByRatingOfSorted` | LifeControlApp/src/pages/ReviewPage.jsx:40-42 | A list already highest-first is left as it is. |
| `ReviewPage.AddPlacesAfterEqualRatings` | LifeControlApp/src/pages/ReviewPage.jsx:40-42 | Adding to the sorted list inserts the new review after every review rated at least as high. |
| `ReviewPage.DeleteKeepsHighestFirst` | LifeControlApp/src/pages/ReviewPage.jsx:52-54 | Deleting from a highest-first list keeps it highest-first. |
| `ReviewPage.StaleEditingIndex` | LifeControlApp/src/pages/ReviewPage.jsx:56-60 | Counterexample: as written, deleting a review before the one being edited leaves `editingIndex` on the wrong review. |
| `ReviewPage.EditingAfterDelete` | LifeControlApp/src/pages/ReviewPage.jsx:56-60 | The corrected index is cleared exactly when the deleted review is the one being edited. |
| `ReviewPage.EditingFollowsReview` | LifeControlApp/src/pages/ReviewPage.jsx:56-60 | After any other review is deleted, the corrected index still names the review being edited. |
| `ReviewPage.ReviewState.constructor` | LifeControlApp/src/pages/ReviewPage.jsx:4-17 | The page starts with no reviews, a closed and empty form, and nothing edited or selected. |
| `ReviewPage.ReviewState.HandleRating` | LifeControlApp/src/pages/ReviewPage.jsx:24-26 | Star `index` sets `form.rating` to `index + 1`, so stars 0 to 4 give ratings 1 to 5. Nothing else changes. |
| `ReviewPage.ReviewState.HandleSubmit` | LifeControlApp/src/pages/ReviewPage.jsx:29-47 | Edit replaces position `editingIndex` by the form and re-sorts, keeping the length. Add re-sorts the old list plus the form, growing it by one. Afterwards the list is highest first, `editingIndex` is null, the form is `emptyForm` and it is hidden. |
| `ReviewPage.ReviewState.HandleDelete` | LifeControlApp/src/pages/ReviewPage.jsx:50-62 | An unconfirmed delete changes nothing. A confirmed one removes exactly position `index` and closes the detail view. Deleting the edited review also clears `editingIndex`, hides the form and empties it. |
| `ReviewPage.ReviewState.HandleEdit` | LifeControlApp/src/pages/ReviewPage.jsx:65-69 | The form holds review `index`, is shown, and `editingIndex` names it. |
| `ReviewPage.ReviewState.ToggleForm` | LifeControlApp/src/pages/ReviewPage.jsx:126-131 | The form toggles. Nothing is being edited afterwards and the form is empty. |
| `ReviewPage.ReviewState.OpenReview` | LifeControlApp/src/pages/ReviewPage.jsx:208 | The detail view shows the clicked review. |
| `ReviewPage.ReviewState.CloseReview` | LifeControlApp/src/pages/ReviewPage.jsx:96 | The detail view closes. |
| `DiaryPage.LexIsNumeric` | LifeControlApp/src/pages/DiaryPage.jsx:73 | For digit strings of equal length, string order is the order of the numbers they spell. |
| `DiaryPage.DateOrderIsLexicographic` | LifeControlApp/src/pages/DiaryPage.jsx:72-73 | For well-formed `YYYY-MM-DD` keys, the date order used by the comparator is exactly the string order of the keys, and distinct keys are distinct dates. |
| `DiaryPage.ListingSpec` | LifeControlApp/src/pages/DiaryPage.jsx:72-74 | The listing shows every diary entry once, in ascending date order. When every key is well formed, the keys rise strictly in string order. |
| `DiaryPage.DiaryState.constructor` | LifeControlApp/src/pages/DiaryPage.jsx:5-15 | The diaries are the loaded ones, nothing is open or being added, and the form is blank for today. |
| `DiaryPage.DiaryState.HandleAddClick` | LifeControlApp/src/pages/DiaryPage.jsx:21-25 | `isAdding` is set, `openDate` is cleared and the form is blank for today. |
| `DiaryPage.DiaryState.SaveDiary` | LifeControlApp/src/pages/DiaryPage.jsx:27-39 | Whitespace-only content changes nothing. Otherwise `diaries[form.date]` becomes the content, overwriting any earlier entry, and other keys stay. `isAdding` is cleared and `openDate` is `form.date`. |
| `DiaryPage.DiaryState.DeleteDiary` | LifeControlApp/src/pages/DiaryPage.jsx:41-50 | A confirmed delete removes key `d` only and clears `openDate`. An unconfirmed one changes nothing. |
| `DiaryPage.DiaryState.HandleBookClick` | LifeControlApp/src/pages/DiaryPage.jsx:52-60 | Clicking the open date closes it. Clicking another date opens it, clears `isAdding` and loads `{d, diaries[d]}` into the form. |
| `DiaryPage.DiaryState.CloseForm` | LifeControlApp/src/pages/DiaryPage.jsx:115-118 | The form closes: `isAdding` is false and nothing is open. |
| `DiaryPage.DiaryState.ChangeDate` | LifeControlApp/src/pages/DiaryPage.jsx:134 | Only the form's date changes. |
| `DiaryPage.DiaryState.ChangeContent` | LifeControlApp/src/pages/DiaryPage.jsx:148 | Only the form's content changes. |
| `WorkoutPage.EditSelection` | LifeControlApp/src/pages/WorkoutPage.jsx:35-36 | The select box always receives one of the predefined options. |
| `WorkoutPage.EditSelectionRoundTrip` | LifeControlApp/src/pages/WorkoutPage.jsx:32-38 | Loading an activity into the form and reading it back as at line 13 gives the same activity, exactly when the activity is not the literal "직접 입력". That literal reads back as empty. |
| `WorkoutPage.CountOn` | LifeControlApp/src/pages/WorkoutPage.jsx:60 | The count is at most the number of workouts. It is 0 exactly when no workout has the date, and equals the total exactly when all have it. |
| `WorkoutPage.Summary` | LifeControlApp/src/pages/WorkoutPage.jsx:59-62 | The summary has exactly the given days as keys, and each maps to the number of workouts on that day. |
| `WorkoutPage.CountsBounded` | LifeControlApp/src/pages/WorkoutPage.jsx:59-62 | For distinct days the counts sum to at most the number of workouts. |
| `WorkoutPage.WorkoutState.constructor` | LifeControlApp/src/pages/WorkoutPage.jsx:4-8 | The log starts empty with blank inputs and nothing edited. |
| `WorkoutPage.WorkoutState.HandleAdd` | LifeControlApp/src/pages/WorkoutPage.jsx:12-30 | An empty activity or date changes nothing. With `editIndex` null the record is appended. Otherwise exactly position `editIndex` is replaced, keeping the length, and `editIndex` becomes null. After a successful add the date, selection and free text are empty. |
| `WorkoutPage.WorkoutState.HandleEdit` | LifeControlApp/src/pages/WorkoutPage.jsx:32-38 | The date is loaded and the (select, free text) pair is `EditSelection` of the activity. `editIndex` names the record. |
| `WorkoutPage.WorkoutState.HandleDelete` | LifeControlApp/src/pages/WorkoutPage.jsx:40-44 | Exactly position `index` is removed, the order is kept and `editIndex` is cleared. |
| `WorkoutPage.EditThenAdd` | LifeControlApp/src/pages/WorkoutPage.jsx:12-38 | Editing record `i` and adding at once reproduces the same list, unless the activity is the literal "직접 입력". In that case nothing is saved and the edit stays open. |

## Left out

- JSX rendering, CSS classes, the chart bar widths and the category dropdown's open/close state with its `mousedown` listener: all display only.
- Routing (`App.jsx`, `MainPage.jsx`, `CommonHeader.jsx`): navigation wrappers with no logic.
- `localStorage` and `JSON.parse`/`JSON.stringify`: foreign I/O. Each store enters as its loaded value, and writing it back after each change is not modelled.
- `dayjs` and `Date` arithmetic: library and clock calls.
  - The month navigation is not modelled.
  - `getLast7Days` is replaced by the `days` parameter.
  - Day cells are plain day numbers rather than `dayjs` objects.
- `DiaryPage.DateKey`: gives the comparator's order only for well-formed `YYYY-MM-DD` keys of real calendar dates. Malformed or empty keys, for which `dayjs` gives `NaN`, are not modelled.
- CalendarPage `getCategoryColor` (`CategoryColor`): a category named like an inherited object property (`constructor`, `toString`) would find a function in the table. The model treats such names as unknown.
- Plain single-field input handlers are not modelled: the calendar's title, time, importance, summary, custom name and colour; the review's `handleChange`; the workout's date, select and free-text inputs. Each sets one field.
- ReviewPage: the browser's `required` check on the title, which blocks submitting an empty title before `handleSubmit` runs.
- `Lists.DropIndex`: a negative index, which `splice` counts from the end, is not modelled. The pages pass list positions only.
- `ReviewPage.ReviewState.HandleDelete`: uses the corrected `EditingAfterDelete`, which moves the index left when an earlier review is deleted. The code as written keeps the index (see Findings).

## Findings

| source | as written | input that shows it | evidently intended | confidence | as-written member | corrected member |
|---|---|---|---|---|---|---|
| LifeControlApp/src/pages/ReviewPage.jsx:56-60 | `handleDelete` clears `editingIndex` only when the deleted index equals it, and otherwise keeps the number. | Ratings 5, 4, 3: edit index 1, delete index 0. `editingIndex` stays 1, which now names the rating-3 review, and submit overwrites it. If the last review is edited instead, the index falls off the end and submit appends a duplicate. | The index keeps naming the review being edited: it moves left by one when an earlier review is deleted. | not executed | `ReviewPage.EditingAfterDeleteAsWritten`, `ReviewPage.StaleEditingIndex` | `ReviewPage.EditingAfterDelete`, `ReviewPage.EditingFollowsReview` |
