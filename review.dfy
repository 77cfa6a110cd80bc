/** The review page (books or films): a list kept with the highest rating
    first, a form that adds a review or edits the one at `editingIndex`, and a
    detail view. */
module ReviewPage {
  import opened Wrappers
  import opened Sorting
  import opened Lists

  datatype Review = Review(title: string, image: string, rating: int, summary: string, fullReview: string)

  /** `emptyForm`. */
  const EmptyForm: Review := Review("", "", 0, "", "")

  /** The comparator `(a, b) => b.rating - a.rating` is `key(a) - key(b)`
      for this key. */
  function ByRating(r: Review): int {
    -r.rating
  }

  /** `list.sort((a, b) => b.rating - a.rating)`. */
  function SortByRating(s: seq<Review>): seq<Review> {
    Sort(s, ByRating)
  }

  ghost predicate HighestFirst(s: seq<Review>) {
    forall i, j | 0 <= i < j < |s| :: s[i].rating >= s[j].rating
  }

  /** The re-sort puts the highest rating first and keeps every review. */
  lemma SortByRatingSpec(s: seq<Review>)
    ensures HighestFirst(SortByRating(s))
    ensures multiset(SortByRating(s)) == multiset(s)
  {
    KeyOrderIsHighestFirst(Sort(s, ByRating));
  }

  /** The re-sort keeps reviews of equal rating in the order they had. */
  lemma SortByRatingStable(s: seq<Review>, rating: int)
    ensures WithKey(SortByRating(s), ByRating, -rating) == WithKey(s, ByRating, -rating)
  {
    var sorted := Sort(s, ByRating);
    assert SortByRating(s) == sorted;
    SortStable(s, ByRating, -rating);
  }

  lemma KeyOrderIsHighestFirst(r: seq<Review>)
    requires SortedBy(r, ByRating)
    ensures HighestFirst(r)
  {
    forall i, j | 0 <= i < j < |r| ensures r[i].rating >= r[j].rating {
      assert ByRating(r[i]) <= ByRating(r[j]);
    }
  }

  /** A list already in order is not changed by the re-sort. */
  lemma SortByRatingOfSorted(s: seq<Review>)
    requires HighestFirst(s)
    ensures SortByRating(s) == s
  {
    assert SortedBy(s, ByRating) by {
      assert forall i, j | 0 <= i < j < |s| :: ByRating(s[i]) <= ByRating(s[j]);
    }
    SortOfSorted(s, ByRating);
  }

  /** Adding to a list in order places the new review after every review
      rated at least as high, and before the rest. */
  lemma AddPlacesAfterEqualRatings(s: seq<Review>, x: Review)
    requires HighestFirst(s)
    ensures SortByRating(s + [x]) == Insert(s, x, ByRating)
  {
    assert (s + [x])[..|s|] == s;
    SortByRatingOfSorted(s);
  }

  /** Removing one review from a list in order keeps it in order. */
  lemma DeleteKeepsHighestFirst(s: seq<Review>, i: int)
    requires HighestFirst(s)
    ensures HighestFirst(DropIndex(s, i))
  {
    var r := DropIndex(s, i);
    if 0 <= i < |s| {
      forall a, b | 0 <= a < b < |r| ensures r[a].rating >= r[b].rating {
        var a', b' := if a < i then a else a + 1, if b < i then b else b + 1;
        assert r[a] == s[a'] && r[b] == s[b'];
      }
    }
  }

  // ---------------------------------------------------------------------
  // Which review the form is editing after a delete

  /** The rule written at ReviewPage.jsx lines 56-60: the editing index is
      cleared when the deleted review is the one being edited, and otherwise
      kept as it was. */
  function EditingAfterDeleteAsWritten(editing: Option<int>, deleted: int): Option<int> {
    if editing == Some(deleted) then None else editing
  }

  /** Deleting a review before the edited one shifts the edited review one
      place to the left, so the kept index names its right neighbour: with
      ratings 5, 4, 3, editing the second and deleting the first, the form
      would be saved over the rating 3 review. */
  lemma StaleEditingIndex()
    ensures
      var s := [Review("a", "", 5, "", ""), Review("b", "", 4, "", ""), Review("c", "", 3, "", "")];
      var after := DropIndex(s, 0);
      var k := EditingAfterDeleteAsWritten(Some(1), 0);
      k == Some(1) && k.value < |after| && after[k.value] != s[1]
  {
    var s := [Review("a", "", 5, "", ""), Review("b", "", 4, "", ""), Review("c", "", 3, "", "")];
    var after := DropIndex(s, 0);
    assert after[1] == s[2];
  }

  /** The editing index follows the edited review: cleared when it is the one
      deleted, moved one place left when a review before it is deleted. */
  function EditingAfterDelete(editing: Option<int>, deleted: int): (r: Option<int>)
    ensures editing == Some(deleted) <==> (editing.Some? && r.None?)
  {
    match editing
    case None => None
    case Some(k) => if k == deleted then None else if 0 <= deleted < k then Some(k - 1) else Some(k)
  }

  /** After any other review is deleted, the corrected index still names the
      review that was being edited. */
  lemma EditingFollowsReview(s: seq<Review>, k: nat, deleted: int)
    requires k < |s| && k != deleted
    ensures var r := EditingAfterDelete(Some(k), deleted);
      r.Some? && r.value < |DropIndex(s, deleted)| && DropIndex(s, deleted)[r.value] == s[k]
  {
  }

  // ---------------------------------------------------------------------
  // The page state

  class ReviewState {
    var reviews: seq<Review>
    var showForm: bool
    /** The review shown in the detail view. */
    var selectedReview: Option<Review>
    var editingIndex: Option<int>
    var form: Review

    /** The list is in order and the editing index names a review. */
    ghost predicate Valid()
      reads this
    {
      && HighestFirst(reviews)
      && (editingIndex.Some? ==> 0 <= editingIndex.value < |reviews|)
    }

    constructor ()
      ensures Valid()
      ensures reviews == [] && !showForm && selectedReview == None && editingIndex == None && form == EmptyForm
    {
      reviews := [];
      showForm := false;
      selectedReview := None;
      editingIndex := None;
      form := EmptyForm;
    }

    /** A click on star `index` (0 to 4) gives the rating `index + 1`. */
    method HandleRating(index: int)
      modifies this
      ensures form == old(form).(rating := index + 1)
      ensures reviews == old(reviews) && showForm == old(showForm)
      ensures selectedReview == old(selectedReview) && editingIndex == old(editingIndex)
    {
      form := form.(rating := index + 1);
    }

    /** `handleSubmit`: the form replaces the review being edited, or is
        added, then the list is re-sorted; the form closes and is emptied. */
    method HandleSubmit()
      requires Valid()
      modifies this
      ensures Valid()
      ensures old(editingIndex).Some? ==>
        reviews == SortByRating(old(reviews)[old(editingIndex).value := old(form)])
      ensures old(editingIndex).None? ==> reviews == SortByRating(old(reviews) + [old(form)])
      ensures |reviews| == if old(editingIndex).Some? then |old(reviews)| else |old(reviews)| + 1
      ensures editingIndex == None && form == EmptyForm && !showForm
      ensures selectedReview == old(selectedReview)
    {
      var newReviews;
      if editingIndex.Some? {
        newReviews := reviews[editingIndex.value := form];
        editingIndex := None;
      } else {
        newReviews := reviews + [form];
      }
      SortByRatingSpec(newReviews);
      reviews := SortByRating(newReviews);
      form := EmptyForm;
      showForm := false;
    }

    /** `handleDelete(index)` after the confirmation answered `confirmed`:
        the review at `index` is removed and the detail view closed; deleting
        the review being edited also closes and empties the form. */
    method HandleDelete(index: int, confirmed: bool)
      requires Valid()
      modifies this
      ensures Valid()
      ensures !confirmed ==>
        && reviews == old(reviews) && showForm == old(showForm) && selectedReview == old(selectedReview)
        && editingIndex == old(editingIndex) && form == old(form)
      ensures confirmed ==> reviews == DropIndex(old(reviews), index) && selectedReview == None
      ensures confirmed ==> editingIndex == EditingAfterDelete(old(editingIndex), index)
      ensures confirmed && old(editingIndex) == Some(index) ==> !showForm && form == EmptyForm
      ensures confirmed && old(editingIndex) != Some(index) ==> showForm == old(showForm) && form == old(form)
    {
      if confirmed {
        DeleteKeepsHighestFirst(reviews, index);
        reviews := DropIndex(reviews, index);
        selectedReview := None;
        if editingIndex == Some(index) {
          editingIndex := None;
          showForm := false;
          form := EmptyForm;
        } else {
          editingIndex := EditingAfterDelete(editingIndex, index);
        }
      }
    }

    /** `handleEdit(index)`: the form is loaded with that review and shown. */
    method HandleEdit(index: nat)
      requires Valid() && index < |reviews|
      modifies this
      ensures Valid()
      ensures editingIndex == Some(index) && form == reviews[index] && showForm
      ensures reviews == old(reviews) && selectedReview == old(selectedReview)
    {
      editingIndex := Some(index);
      form := reviews[index];
      showForm := true;
    }

    /** The add/close button: the form toggles and is emptied, and nothing is
        being edited any more. */
    method ToggleForm()
      requires Valid()
      modifies this
      ensures Valid()
      ensures showForm == !old(showForm) && editingIndex == None && form == EmptyForm
      ensures reviews == old(reviews) && selectedReview == old(selectedReview)
    {
      showForm := !showForm;
      editingIndex := None;
      form := EmptyForm;
    }

    /** A click on a card opens its detail view. */
    method OpenReview(index: nat)
      requires index < |reviews|
      modifies this
      ensures selectedReview == Some(old(reviews)[index])
      ensures reviews == old(reviews) && showForm == old(showForm)
      ensures editingIndex == old(editingIndex) && form == old(form)
    {
      selectedReview := Some(reviews[index]);
    }

    /** The back button of the detail view. */
    method CloseReview()
      modifies this
      ensures selectedReview == None
      ensures reviews == old(reviews) && showForm == old(showForm)
      ensures editingIndex == old(editingIndex) && form == old(form)
    {
      selectedReview := None;
    }
  }
}
