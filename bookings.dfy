/** The booking page (src/app/booking/page.tsx): a form that adds bookings,
    a search over name, room and status, a table sorted on the text of the
    chosen column and paged five rows at a time, and a colour per status. */
module Bookings {
  import opened Options
  import opened Strings
  import opened ListView
  import opened StableSort

  /** A booking as loaded: only the id is sure to be present. */
  datatype Booking = Booking(id: int, name: Option<string>, room: Option<string>, date: Option<string>, status: Option<string>)

  /** The "Add New Booking" form. */
  datatype BookingForm = BookingForm(name: string, room: string, date: string, status: string)

  const EmptyForm := BookingForm("", "", "", "")

  /** The form's inputs, by their `name` attribute. */
  datatype Field = NameField | RoomField | DateField | StatusField

  /** The sortable column headers. */
  datatype Column = Id | Name | Room | Date | Status

  const PageSize: nat := 5

  function BookingId(b: Booking): int {
    b.id
  }

  // ---------------------------------------------------------------------
  // Search

  /** `item.field?.toLowerCase() || ""`: a missing field reads as empty. */
  function LowerOrEmpty(field: Option<string>): (r: string)
    ensures field.None? ==> r == ""
    ensures |r| == |field.GetOr("")|
    ensures forall i | 0 <= i < |r| :: !IsUpper(r[i])
  {
    Lower(field.GetOr(""))
  }

  /** The lower-cased term occurs in the name, the room or the status; the
      date and the id are not searched. */
  predicate Matches(b: Booking, term: string) {
    Contains(LowerOrEmpty(b.name), Lower(term))
    || Contains(LowerOrEmpty(b.room), Lower(term))
    || Contains(LowerOrEmpty(b.status), Lower(term))
  }

  function MatchesTerm(term: string): Booking -> bool {
    (b: Booking) => Matches(b, term)
  }

  /** The filtering half of `filteredData`. */
  function FilteredData(bookings: seq<Booking>, term: string): (r: seq<Booking>)
    ensures forall x | x in r :: x in bookings && Matches(x, term)
    ensures forall x | x in bookings :: x in r <==>
      Contains(LowerOrEmpty(x.name), Lower(term)) || Contains(LowerOrEmpty(x.room), Lower(term)) || Contains(LowerOrEmpty(x.status), Lower(term))
  {
    FilterMembers(bookings, MatchesTerm(term));
    Filter(bookings, MatchesTerm(term))
  }

  /** The filter keeps matching bookings in their order; an empty term keeps
      them all; the case of the term does not matter; a booking without a
      name, room or status is found only by the empty term. */
  lemma SearchProperties(bookings: seq<Booking>, term: string, other: string)
    ensures IsSubsequence(FilteredData(bookings, term), bookings)
    ensures forall x | x in bookings :: multiset(FilteredData(bookings, term))[x] == if Matches(x, term) then multiset(bookings)[x] else 0
    ensures term == "" ==> FilteredData(bookings, term) == bookings
    ensures Lower(term) == Lower(other) ==> FilteredData(bookings, term) == FilteredData(bookings, other)
    ensures forall b: Booking | b.name == b.room == b.status == None :: Matches(b, term) <==> term == ""
  {
    FilterSubsequence(bookings, MatchesTerm(term));
    forall x | x in bookings
      ensures multiset(FilteredData(bookings, term))[x] == if Matches(x, term) then multiset(bookings)[x] else 0
    {
      FilterCounts(bookings, MatchesTerm(term), x);
    }
    if term == "" {
      forall x | x in bookings
        ensures MatchesTerm(term)(x)
      {
        ContainsEmpty(LowerOrEmpty(x.name));
      }
      FilterKeepsAll(bookings, MatchesTerm(term));
    }
    if Lower(term) == Lower(other) {
      FilterCongruent(bookings, MatchesTerm(term), MatchesTerm(other));
    }
    forall b: Booking | b.name == b.room == b.status == None
      ensures Matches(b, term) <==> term == ""
    {
      assert LowerOrEmpty(b.name) == "";
      if Contains("", Lower(term)) {
        var i :| OccursAt("", Lower(term), i);
      }
    }
  }

  // ---------------------------------------------------------------------
  // Sort

  /** `a[sortBy]?.toString()`, or "" when the field is missing. */
  function ColumnText(b: Booking, c: Column): string {
    match c
    case Id => IntToString(b.id)
    case Name => b.name.GetOr("")
    case Room => b.room.GetOr("")
    case Date => b.date.GetOr("")
    case Status => b.status.GetOr("")
  }

  /** Every column, the id included, is compared as lower-cased text. */
  function ColumnKey(b: Booking, c: Column): (k: SortKey)
    ensures k.Str? && forall i | 0 <= i < |k.s| :: !IsUpper(k.s[i])
  {
    Str(Lower(ColumnText(b, c)))
  }

  function KeyOf(c: Column): Booking -> SortKey {
    (b: Booking) => ColumnKey(b, c)
  }

  /** The sorting half of `filteredData`: the filtered bookings ordered by
      the chosen column; ties keep their filtered order. */
  function SortedData(filtered: seq<Booking>, sortBy: Column, sortOrder: Direction): (r: seq<Booking>)
    ensures multiset(r) == multiset(filtered)
    ensures Sorted(r, KeyOf(sortBy), sortOrder)
    ensures forall k :: KeyClass(r, KeyOf(sortBy), k) == KeyClass(filtered, KeyOf(sortBy), k)
  {
    SortPermutes(filtered, KeyOf(sortBy), sortOrder);
    SortSorted(filtered, KeyOf(sortBy), sortOrder);
    SortStable(filtered, KeyOf(sortBy), sortOrder);
    Sort(filtered, KeyOf(sortBy), sortOrder)
  }

  /** As text, id 10 comes before id 2. */
  lemma IdTextOrder(a: Booking, b: Booking)
    requires a.id == 2 && b.id == 10
    ensures Precedes(KeyOf(Id)(b), KeyOf(Id)(a), Asc)
  {
    assert NatToString(10) == "10" by {
      assert NatToString(10) == NatToString(1) + [DigitChar(0)];
    }
    assert ColumnKey(b, Id) == Str("10") by {
      assert Lower("10") == "10";
    }
    assert ColumnKey(a, Id) == Str("2") by {
      assert Lower("2") == "2";
    }
    assert StrLess("10", "2");
  }

  /** The text order sorts ids digit by digit: booking 10 comes before
      booking 2 when the table is sorted by id ascending. */
  lemma IdSortIsTextual(a: Booking, b: Booking)
    requires a.id == 2 && b.id == 10
    ensures SortedData([a, b], Id, Asc) == [b, a]
  {
    IdTextOrder(a, b);
    assert Sort([b], KeyOf(Id), Asc) == [b] by {
      assert [b][1..] == [];
    }
    assert [a, b][0] == a && [a, b][1..] == [b];
    assert Insert(a, [b], KeyOf(Id), Asc) == [b] + Insert(a, [], KeyOf(Id), Asc);
  }

  /** `handleSort`: the current column flips its order; a new column starts
      ascending. */
  function ToggleSort(sortBy: Column, sortOrder: Direction, field: Column): (r: (Column, Direction))
    ensures r.0 == field
    ensures sortBy == field ==> r.1 != sortOrder
    ensures sortBy != field ==> r.1 == Asc
  {
    if sortBy == field then (sortBy, Flip(sortOrder)) else (field, Asc)
  }

  /** Two clicks on one column: back where it was if it was already the
      sort column, descending otherwise. */
  lemma ToggleSortTwice(sortBy: Column, sortOrder: Direction, field: Column)
    ensures var (c1, o1) := ToggleSort(sortBy, sortOrder, field);
      ToggleSort(c1, o1, field) == if sortBy == field then (sortBy, sortOrder) else (field, Desc)
  {
  }

  // ---------------------------------------------------------------------
  // Adding a booking

  /** The value an input of the form shows. */
  function FieldValue(form: BookingForm, field: Field): string {
    match field
    case NameField => form.name
    case RoomField => form.room
    case DateField => form.date
    case StatusField => form.status
  }

  /** `handleInputChange`: the changed input shows the new value and every
      other input keeps its own. */
  function SetField(form: BookingForm, field: Field, value: string): (r: BookingForm)
    ensures FieldValue(r, field) == value
    ensures forall g: Field | g != field :: FieldValue(r, g) == FieldValue(form, g)
  {
    match field
    case NameField => form.(name := value)
    case RoomField => form.(room := value)
    case DateField => form.(date := value)
    case StatusField => form.(status := value)
  }

  /** The form passes validation: no field is empty. */
  predicate Complete(form: BookingForm) {
    form.name != "" && form.room != "" && form.date != "" && form.status != ""
  }

  /** The effect of `handleSubmit` on the list: None when a field is empty
      (the page alerts and keeps everything), otherwise the list with the
      form appended under an id one more than the largest in use. */
  function SubmitBooking(bookings: seq<Booking>, form: BookingForm): (r: Option<seq<Booking>>)
    ensures r.None? <==> !Complete(form)
    ensures r.Some? ==> |r.value| == |bookings| + 1 && r.value[..|bookings|] == bookings
    ensures r.Some? ==> var b := r.value[|bookings|];
      b.name == Some(form.name) && b.room == Some(form.room) && b.date == Some(form.date) && b.status == Some(form.status)
    ensures r.Some? ==> forall i | 0 <= i < |bookings| :: bookings[i].id < r.value[|bookings|].id
    ensures r.Some? ==> r.value[|bookings|].id == NextId(bookings, BookingId)
  {
    if !Complete(form) then
      None
    else
      var newId := NextId(bookings, BookingId);
      Some(bookings + [Booking(newId, Some(form.name), Some(form.room), Some(form.date), Some(form.status))])
  }

  /** A submitted booking never reuses an id: unique ids stay unique, and
      the new id is 1 in an empty list. */
  lemma SubmitKeepsIdsUnique(bookings: seq<Booking>, form: BookingForm)
    requires UniqueIds(bookings, BookingId)
    ensures SubmitBooking(bookings, form).Some? ==> UniqueIds(SubmitBooking(bookings, form).value, BookingId)
    ensures bookings == [] && Complete(form) ==> SubmitBooking(bookings, form).value[0].id == 1
  {
    var r := SubmitBooking(bookings, form);
    if r.Some? {
      var s := r.value;
      forall i, j | 0 <= i < j < |s|
        ensures BookingId(s[i]) != BookingId(s[j])
      {
        assert s[i] == bookings[i];
        if j < |bookings| {
          assert s[j] == bookings[j];
        }
      }
    }
  }

  // ---------------------------------------------------------------------
  // Status colours

  const Green := "bg-green-500 text-white"
  const Yellow := "bg-yellow-500 text-black"
  const Red := "bg-red-500 text-white"
  const Gray := "bg-gray-300 text-gray-700"

  /** `getStatusColor`: the badge classes for a status, whatever its case. */
  function GetStatusColor(status: Option<string>): (r: string)
    ensures r == Green <==> status.Some? && Lower(status.value) == "confirmed"
    ensures r == Yellow <==> status.Some? && Lower(status.value) == "pending"
    ensures r == Red <==> status.Some? && Lower(status.value) == "cancelled"
    ensures r == Gray <==> status.None? || Lower(status.value) !in {"confirmed", "pending", "cancelled"}
  {
    match status
    case None => Gray
    case Some(s) =>
      var l := Lower(s);
      if l == "confirmed" then Green
      else if l == "pending" then Yellow
      else if l == "cancelled" then Red
      else Gray
  }

  /** The colour depends on the status only up to case, and each option of
      the form's status select gets its own colour. */
  lemma StatusColorIgnoresCase(s: string, t: string)
    ensures Lower(s) == Lower(t) ==> GetStatusColor(Some(s)) == GetStatusColor(Some(t))
    ensures GetStatusColor(Some("Confirmed")) == Green
    ensures GetStatusColor(Some("Pending")) == Yellow
    ensures GetStatusColor(Some("Cancelled")) == Red
  {
    assert Lower("Confirmed") == "confirmed";
    assert Lower("Pending") == "pending";
    assert Lower("Cancelled") == "cancelled";
  }

  // ---------------------------------------------------------------------
  // The page's state and its handlers

  class BookingPage {
    var bookings: seq<Booking>
    var search: string
    var sortBy: Column
    var sortOrder: Direction
    var page: nat
    var newBooking: BookingForm

    /** The page once the fixture has loaded. */
    constructor (fixture: seq<Booking>)
      ensures bookings == fixture && search == "" && sortBy == Id && sortOrder == Asc
      ensures page == 1 && newBooking == EmptyForm
    {
      bookings := fixture;
      search := "";
      sortBy := Id;
      sortOrder := Asc;
      page := 1;
      newBooking := EmptyForm;
    }

    /** `filteredData`: the bookings the search matches, in the chosen order. */
    function FilteredRows(): (r: seq<Booking>)
      reads this
      ensures forall x | x in r :: x in bookings && Matches(x, search)
    {
      var filtered := FilteredData(bookings, search);
      var r := SortedData(filtered, sortBy, sortOrder);
      assert forall x | x in r :: x in filtered by {
        forall x | x in r
          ensures x in filtered
        {
          assert x in multiset(r);
        }
      }
      r
    }

    /** `paginatedData`: at most five rows, starting at row
        `(page - 1) * 5` of the filtered rows. */
    function PaginatedData(): (rows: seq<Booking>)
      reads this
      ensures |rows| <= PageSize
      ensures page >= 1 ==> |rows| == Max(0, Min(PageSize, |FilteredRows()| - (page - 1) * PageSize))
      ensures page >= 1 ==> forall i | 0 <= i < |rows| :: rows[i] == FilteredRows()[(page - 1) * PageSize + i]
      ensures page == 0 ==> rows == []
      ensures forall x | x in rows :: x in bookings && Matches(x, search)
    {
      var filtered := FilteredRows();
      var rows := Page(filtered, page, PageSize);
      assert forall x | x in rows :: x in filtered;
      rows
    }

    /** `Math.ceil(filteredData.length / pageSize)`. */
    function TotalPages(): (n: nat)
      reads this
      ensures n * PageSize >= |FilteredRows()|
      ensures n > 0 ==> (n - 1) * PageSize < |FilteredRows()|
      ensures n == 0 <==> FilteredRows() == []
    {
      PageCount(|FilteredRows()|, PageSize)
    }

    /** Typing in the search box also returns to page 1. */
    method SetSearch(term: string)
      modifies this
      ensures search == term && page == 1
      ensures bookings == old(bookings) && sortBy == old(sortBy) && sortOrder == old(sortOrder)
      ensures newBooking == old(newBooking)
    {
      search := term;
      page := 1;
    }

    method HandleSort(field: Column)
      modifies this
      ensures (sortBy, sortOrder) == ToggleSort(old(sortBy), old(sortOrder), field)
      ensures bookings == old(bookings) && search == old(search) && page == old(page)
      ensures newBooking == old(newBooking)
    {
      if sortBy == field {
        sortOrder := if sortOrder == Asc then Desc else Asc;
      } else {
        sortBy := field;
        sortOrder := Asc;
      }
    }

    method HandleInputChange(field: Field, value: string)
      modifies this
      ensures newBooking == SetField(old(newBooking), field, value)
      ensures bookings == old(bookings) && search == old(search) && page == old(page)
      ensures sortBy == old(sortBy) && sortOrder == old(sortOrder)
    {
      newBooking := SetField(newBooking, field, value);
    }

    /** An incomplete form changes nothing (the page only alerts); a
        complete one is added, the form cleared and page 1 shown. */
    method HandleSubmit()
      modifies this
      ensures SubmitBooking(old(bookings), old(newBooking)).None? ==>
        bookings == old(bookings) && newBooking == old(newBooking) && page == old(page)
      ensures SubmitBooking(old(bookings), old(newBooking)).Some? ==>
        bookings == SubmitBooking(old(bookings), old(newBooking)).value && newBooking == EmptyForm && page == 1
      ensures search == old(search) && sortBy == old(sortBy) && sortOrder == old(sortOrder)
    {
      if newBooking.name == "" || newBooking.room == "" || newBooking.date == "" || newBooking.status == "" {
        return;
      }
      var newId := if |bookings| > 0 then MaxId(bookings, BookingId) + 1 else 1;
      var newBookingData := Booking(newId, Some(newBooking.name), Some(newBooking.room), Some(newBooking.date), Some(newBooking.status));
      bookings := bookings + [newBookingData];
      newBooking := EmptyForm;
      page := 1;
    }

    /** The Previous button (disabled on page 1, where it would not move). */
    method Previous()
      modifies this
      ensures page == ClampedPrevious(old(page))
      ensures bookings == old(bookings) && search == old(search) && newBooking == old(newBooking)
      ensures sortBy == old(sortBy) && sortOrder == old(sortOrder)
    {
      if page != 1 {
        page := Max(page - 1, 1);
      }
    }

    /** The Next button (disabled on the last page, where it would not move). */
    method Next()
      modifies this
      ensures page == ClampedNext(old(page), old(TotalPages()))
      ensures bookings == old(bookings) && search == old(search) && newBooking == old(newBooking)
      ensures sortBy == old(sortBy) && sortOrder == old(sortOrder)
    {
      var total := TotalPages();
      if page != total {
        page := Min(page + 1, total);
      }
    }
  }
}
