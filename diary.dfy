/** The diary page: one entry per date in a map from date string to text, a
    form for writing or editing an entry, and the date-ordered listing of the
    diary "books". */
module DiaryPage {
  import opened Wrappers
  import opened Text
  import opened Sorting

  datatype DiaryForm = DiaryForm(date: string, content: string)

  // ---------------------------------------------------------------------
  // Dates written `YYYY-MM-DD`

  predicate IsDigit(c: char) {
    '0' <= c <= '9'
  }

  predicate AllDigits(s: string) {
    forall i | 0 <= i < |s| :: IsDigit(s[i])
  }

  /** The number a string of decimal digits spells. */
  function Number(s: string): nat
    requires AllDigits(s)
  {
    if s == [] then 0 else Number(s[..|s| - 1]) * 10 + (s[|s| - 1] as int - '0' as int)
  }

  predicate WellFormedDate(s: string) {
    |s| == 10 && s[4] == '-' && s[7] == '-' && AllDigits(s[..4]) && AllDigits(s[5..7]) && AllDigits(s[8..])
  }

  /** The digits of a well-formed date, without the dashes. */
  function DateDigits(s: string): string
    requires WellFormedDate(s)
  {
    s[..4] + s[5..7] + s[8..]
  }

  /** The position of a date on the time line, as the number `yyyymmdd`; the
      comparator `dayjs(a).diff(dayjs(b))` has the sign of
      `DateKey(a) - DateKey(b)` for valid dates. */
  function DateKey(s: string): int {
    if WellFormedDate(s) then Number(DateDigits(s)) else 0
  }

  /** JavaScript's `<` on strings: the first differing character decides, and
      a proper prefix comes first. */
  predicate LexLess(a: string, b: string) {
    if a == [] then b != []
    else b != [] && (a[0] < b[0] || (a[0] == b[0] && LexLess(a[1..], b[1..])))
  }

  lemma {:induction false} LexConcat(p: string, q: string, p': string, q': string)
    requires |p| == |p'|
    ensures LexLess(p + q, p' + q') <==> LexLess(p, p') || (p == p' && LexLess(q, q'))
  {
    if p != [] {
      assert (p + q)[1..] == p[1..] + q && (p' + q')[1..] == p'[1..] + q';
      LexConcat(p[1..], q, p'[1..], q');
      assert p == p' <==> (p[0] == p'[0] && p[1..] == p'[1..]) by {
        assert p == [p[0]] + p[1..] && p' == [p'[0]] + p'[1..];
      }
    } else {
      assert p + q == q && p' + q' == q';
    }
  }

  lemma {:induction false} NumberInjective(x: string, y: string)
    requires |x| == |y| && AllDigits(x) && AllDigits(y) && Number(x) == Number(y)
    ensures x == y
  {
    if x != [] {
      var n := |x| - 1;
      NumberInjective(x[..n], y[..n]);
      assert x == x[..n] + [x[n]] && y == y[..n] + [y[n]];
    }
  }

  /** For digit strings of one length, the string order is the numeric one. */
  lemma {:induction false} LexIsNumeric(x: string, y: string)
    requires |x| == |y| && AllDigits(x) && AllDigits(y)
    ensures LexLess(x, y) <==> Number(x) < Number(y)
  {
    if x != [] {
      var n := |x| - 1;
      var x', y' := x[..n], y[..n];
      assert x == x' + [x[n]] && y == y' + [y[n]];
      LexIsNumeric(x', y');
      LexConcat(x', [x[n]], y', [y[n]]);
      assert LexLess([x[n]], [y[n]]) <==> x[n] < y[n] by {
        assert [x[n]][1..] == [] && [y[n]][1..] == [];
      }
      if Number(x') == Number(y') {
        NumberInjective(x', y');
      }
    }
  }

  /** On well-formed keys the date order of the listing is the plain string
      order of the keys, and distinct dates have distinct keys. */
  lemma DateOrderIsLexicographic(a: string, b: string)
    requires WellFormedDate(a) && WellFormedDate(b)
    ensures DateKey(a) < DateKey(b) <==> LexLess(a, b)
    ensures DateKey(a) == DateKey(b) ==> a == b
  {
    var ya, ma, da := a[..4], a[5..7], a[8..];
    var yb, mb, db := b[..4], b[5..7], b[8..];
    // the dates, split at the dashes
    assert a == ya + (['-'] + (ma + (['-'] + da)));
    assert b == yb + (['-'] + (mb + (['-'] + db)));
    LexConcat(ya, ['-'] + (ma + (['-'] + da)), yb, ['-'] + (mb + (['-'] + db)));
    LexConcat(['-'], ma + (['-'] + da), ['-'], mb + (['-'] + db));
    LexConcat(ma, ['-'] + da, mb, ['-'] + db);
    LexConcat(['-'], da, ['-'], db);
    assert LexLess(['-'], ['-']) == false;
    // the digits, without the dashes
    assert DateDigits(a) == ya + (ma + da) && DateDigits(b) == yb + (mb + db);
    LexConcat(ya, ma + da, yb, mb + db);
    LexConcat(ma, da, mb, db);
    LexIsNumeric(DateDigits(a), DateDigits(b));
    if DateKey(a) == DateKey(b) {
      NumberInjective(DateDigits(a), DateDigits(b));
      assert ya == DateDigits(a)[..4] && yb == DateDigits(b)[..4];
      assert ma == DateDigits(a)[4..6] && mb == DateDigits(b)[4..6];
      assert da == DateDigits(a)[6..] && db == DateDigits(b)[6..];
    }
  }

  // ---------------------------------------------------------------------
  // The listing

  type Entry = (string, string)

  function EntryKey(e: Entry): int {
    DateKey(e.0)
  }

  /** `Object.entries(diaries).sort((a, b) => dayjs(a[0]).diff(dayjs(b[0])))`,
      given the entries in the order JavaScript enumerates them. */
  function Listing(entries: seq<Entry>): seq<Entry> {
    Sort(entries, EntryKey)
  }

  /** `entries` lists every entry of `diaries` exactly once. */
  ghost predicate Enumerates(entries: seq<Entry>, diaries: map<string, string>) {
    && (forall e :: e in entries <==> e.0 in diaries && diaries[e.0] == e.1)
    && (forall i, j | 0 <= i < j < |entries| :: entries[i] != entries[j])
  }

  lemma {:induction false} NoRepeatsByCount<T>(s: seq<T>)
    ensures (forall i, j | 0 <= i < j < |s| :: s[i] != s[j]) <==> (forall x :: multiset(s)[x] <= 1)
  {
    if s != [] {
      var t := s[1..];
      assert s == [s[0]] + t;
      NoRepeatsByCount(t);
      if forall i, j | 0 <= i < j < |s| :: s[i] != s[j] {
        assert s[0] !in t by {
          assert forall j | 0 <= j < |t| :: t[j] == s[j + 1];
        }
        assert forall i, j | 0 <= i < j < |t| :: t[i] != t[j] by {
          forall i, j | 0 <= i < j < |t| ensures t[i] != t[j] {
            assert t[i] == s[i + 1] && t[j] == s[j + 1];
          }
        }
      }
      if forall x :: multiset(s)[x] <= 1 {
        assert multiset(t)[s[0]] == 0 by {
          assert multiset(s)[s[0]] == multiset(t)[s[0]] + 1;
        }
        forall x ensures multiset(t)[x] <= 1 {
          assert multiset(s)[x] >= multiset(t)[x];
        }
        forall i, j | 0 <= i < j < |s| ensures s[i] != s[j] {
          if i == 0 {
            assert s[j] in t;
          } else {
            assert s[i] == t[i - 1] && s[j] == t[j - 1];
          }
        }
      }
    }
  }

  /** The listing shows every diary once, in date order; when every key is a
      well-formed date, the dates rise strictly in string order. */
  lemma ListingSpec(entries: seq<Entry>, diaries: map<string, string>)
    requires Enumerates(entries, diaries)
    ensures var r := Listing(entries);
      && |r| == |entries|
      && (forall e :: e in r <==> e.0 in diaries && diaries[e.0] == e.1)
      && (forall i, j | 0 <= i < j < |r| :: DateKey(r[i].0) <= DateKey(r[j].0))
      && ((forall d | d in diaries :: WellFormedDate(d)) ==>
            forall i, j | 0 <= i < j < |r| :: LexLess(r[i].0, r[j].0))
  {
    var r := Listing(entries);
    assert forall e :: e in r <==> e in entries by {
      forall e ensures e in r <==> e in entries {
        assert e in r <==> e in multiset(r);
      }
    }
    assert SortedBy(r, EntryKey);
    assert forall i, j | 0 <= i < j < |r| :: EntryKey(r[i]) <= EntryKey(r[j]);
    NoRepeatsByCount(entries);
    NoRepeatsByCount(r);
    if forall d | d in diaries :: WellFormedDate(d) {
      forall i, j | 0 <= i < j < |r| ensures LexLess(r[i].0, r[j].0) {
        assert r[i] in r && r[j] in r;
        DateOrderIsLexicographic(r[i].0, r[j].0);
        assert EntryKey(r[i]) <= EntryKey(r[j]);
      }
    }
  }

  // ---------------------------------------------------------------------
  // The page state

  class DiaryState {
    /** The diaries, loaded as they were saved. */
    var diaries: map<string, string>
    /** The date whose book is open. */
    var openDate: Option<string>
    var isAdding: bool
    var form: DiaryForm

    constructor (saved: map<string, string>, today: string)
      ensures diaries == saved && openDate == None && !isAdding && form == DiaryForm(today, "")
    {
      diaries := saved;
      openDate := None;
      isAdding := false;
      form := DiaryForm(today, "");
    }

    /** `handleAddClick`: a blank entry for today is started. */
    method HandleAddClick(today: string)
      modifies this
      ensures isAdding && openDate == None && form == DiaryForm(today, "")
      ensures diaries == old(diaries)
    {
      isAdding := true;
      openDate := None;
      form := DiaryForm(today, "");
    }

    /** `saveDiary`: blank content leaves everything as it was (the alert);
        otherwise the entry for the form's date is written, replacing any
        earlier one, and that date's book is opened. */
    method SaveDiary() returns (saved: bool)
      modifies this
      ensures saved == (Trim(old(form.content)) != "")
      ensures saved ==> diaries == old(diaries)[old(form.date) := old(form.content)]
      ensures saved ==> !isAdding && openDate == Some(old(form.date))
      ensures !saved ==> diaries == old(diaries) && isAdding == old(isAdding) && openDate == old(openDate)
      ensures form == old(form)
    {
      if Trim(form.content) == "" {
        return false;
      }
      diaries := diaries[form.date := form.content];
      isAdding := false;
      openDate := Some(form.date);
      saved := true;
    }

    /** `deleteDiary(date)` after the confirmation answered `confirmed`: the
        entry goes and the book closes. */
    method DeleteDiary(date: string, confirmed: bool)
      modifies this
      ensures confirmed ==> diaries == old(diaries) - {date} && openDate == None
      ensures !confirmed ==> diaries == old(diaries) && openDate == old(openDate)
      ensures isAdding == old(isAdding) && form == old(form)
    {
      if confirmed {
        diaries := diaries - {date};
        openDate := None;
      }
    }

    /** `handleBookClick(date)`: the open book closes; another book opens,
        with its entry loaded into the form. The dates offered are the keys
        of the listing. */
    method HandleBookClick(date: string)
      requires openDate == Some(date) || date in diaries
      modifies this
      ensures old(openDate) == Some(date) ==>
        openDate == None && isAdding == old(isAdding) && form == old(form)
      ensures old(openDate) != Some(date) ==>
        openDate == Some(date) && !isAdding && form == DiaryForm(date, old(diaries)[date])
      ensures diaries == old(diaries)
    {
      if openDate == Some(date) {
        openDate := None;
      } else {
        openDate := Some(date);
        isAdding := false;
        form := DiaryForm(date, diaries[date]);
      }
    }

    /** The close button of the form. */
    method CloseForm()
      modifies this
      ensures !isAdding && openDate == None
      ensures diaries == old(diaries) && form == old(form)
    {
      isAdding := false;
      openDate := None;
    }

    /** The date input of a new entry. */
    method ChangeDate(date: string)
      modifies this
      ensures form == old(form).(date := date)
      ensures diaries == old(diaries) && openDate == old(openDate) && isAdding == old(isAdding)
    {
      form := form.(date := date);
    }

    /** The text area. */
    method ChangeContent(content: string)
      modifies this
      ensures form == old(form).(content := content)
      ensures diaries == old(diaries) && openDate == old(openDate) && isAdding == old(isAdding)
    {
      form := form.(content := content);
    }
  }
}
