/** The room management page (src/app/room/page.tsx): a table of rooms that
    can be searched over every field, sorted by clicking a column header and
    paged five rows at a time, with forms that add and edit rooms and a
    button that deletes one. */
module Rooms {
  import opened Options
  import opened Strings
  import opened ListView
  import opened StableSort

  datatype Room = Room(id: int, nama: string, kapasitas: int, kategori: string, harga: int, status: string)

  /** The add/edit form. Its `id` is null until the form is filled from an
      existing room by the Edit button. */
  datatype RoomForm = RoomForm(id: Option<int>, nama: string, kapasitas: int, kategori: string, harga: int, status: string)

  const EmptyForm := RoomForm(None, "", 0, "", 0, "")

  /** The sortable column headers. */
  datatype Column = Nama | Kapasitas | Kategori | Harga | Status

  datatype SortConfig = SortConfig(key: Column, direction: Direction)

  const InitialSort := SortConfig(Nama, Asc)

  const RowsPerPage: nat := 5

  function RoomId(r: Room): int {
    r.id
  }

  // ---------------------------------------------------------------------
  // Search

  /** `Object.values(room)`, each passed through `String`. */
  function FieldTexts(r: Room): seq<string> {
    [IntToString(r.id), r.nama, IntToString(r.kapasitas), r.kategori, IntToString(r.harga), r.status]
  }

  /** Some field of the room, lower-cased, contains the lower-cased term. */
  predicate Matches(r: Room, term: string) {
    exists v | v in FieldTexts(r) :: Contains(Lower(v), Lower(term))
  }

  function MatchesTerm(term: string): Room -> bool {
    (r: Room) => Matches(r, term)
  }

  /** `filteredData`: the rooms the search term matches. */
  function FilteredData(data: seq<Room>, term: string): (r: seq<Room>)
    ensures forall x | x in r :: x in data && Matches(x, term)
    ensures forall x | x in data :: x in r <==> exists v | v in FieldTexts(x) :: Contains(Lower(v), Lower(term))
  {
    FilterMembers(data, MatchesTerm(term));
    Filter(data, MatchesTerm(term))
  }

  /** The filter keeps the matching rooms in their original order, each as
      often as it occurs; an empty term keeps every room; the search ignores
      the case of the term. */
  lemma SearchProperties(data: seq<Room>, term: string, other: string)
    ensures IsSubsequence(FilteredData(data, term), data)
    ensures forall x | x in data :: multiset(FilteredData(data, term))[x] == if Matches(x, term) then multiset(data)[x] else 0
    ensures term == "" ==> FilteredData(data, term) == data
    ensures Lower(term) == Lower(other) ==> FilteredData(data, term) == FilteredData(data, other)
  {
    FilterSubsequence(data, MatchesTerm(term));
    forall x | x in data
      ensures multiset(FilteredData(data, term))[x] == if Matches(x, term) then multiset(data)[x] else 0
    {
      FilterCounts(data, MatchesTerm(term), x);
    }
    if term == "" {
      forall x | x in data
        ensures MatchesTerm(term)(x)
      {
        ContainsEmpty(Lower(FieldTexts(x)[0]));
      }
      FilterKeepsAll(data, MatchesTerm(term));
    }
    if Lower(term) == Lower(other) {
      FilterCongruent(data, MatchesTerm(term), MatchesTerm(other));
    }
  }

  // ---------------------------------------------------------------------
  // Sort

  /** `a[sortConfig.key]`: the raw field value that `<` compares; numbers
      compare numerically and strings character by character, with no
      lower-casing. */
  function ColumnKey(r: Room, c: Column): (k: SortKey)
    ensures k.Num? <==> c == Kapasitas || c == Harga
    ensures k.Str? ==> k.s == r.nama || k.s == r.kategori || k.s == r.status
  {
    match c
    case Nama => Str(r.nama)
    case Kapasitas => Num(r.kapasitas)
    case Kategori => Str(r.kategori)
    case Harga => Num(r.harga)
    case Status => Str(r.status)
  }

  function KeyOf(c: Column): Room -> SortKey {
    (r: Room) => ColumnKey(r, c)
  }

  /** `sortedData`: the filtered rooms sorted by the chosen column in the
      chosen direction; rooms with equal values keep their filtered order. */
  function SortedData(filtered: seq<Room>, cfg: SortConfig): (r: seq<Room>)
    ensures multiset(r) == multiset(filtered)
    ensures Sorted(r, KeyOf(cfg.key), cfg.direction)
    ensures forall k :: KeyClass(r, KeyOf(cfg.key), k) == KeyClass(filtered, KeyOf(cfg.key), k)
  {
    SortPermutes(filtered, KeyOf(cfg.key), cfg.direction);
    SortSorted(filtered, KeyOf(cfg.key), cfg.direction);
    SortStable(filtered, KeyOf(cfg.key), cfg.direction);
    Sort(filtered, KeyOf(cfg.key), cfg.direction)
  }

  /** On a numeric column the sorted capacities or prices never fall
      (ascending) or never rise (descending) down the table. */
  lemma NumericColumnOrder(filtered: seq<Room>, cfg: SortConfig)
    requires cfg.key == Kapasitas || cfg.key == Harga
    ensures var r := SortedData(filtered, cfg);
      forall i, j | 0 <= i < j < |r| ::
        var a, b := ColumnKey(r[i], cfg.key).n, ColumnKey(r[j], cfg.key).n;
        if cfg.direction == Asc then a <= b else a >= b
  {
    var r := SortedData(filtered, cfg);
    forall i, j | 0 <= i < j < |r|
      ensures var a, b := ColumnKey(r[i], cfg.key).n, ColumnKey(r[j], cfg.key).n;
        if cfg.direction == Asc then a <= b else a >= b
    {
      assert !Precedes(KeyOf(cfg.key)(r[j]), KeyOf(cfg.key)(r[i]), cfg.direction);
    }
  }

  /** `handleSort`: clicking the current column while ascending makes it
      descending; any other click sorts by the clicked column ascending. */
  function ToggleSort(cfg: SortConfig, key: Column): (r: SortConfig)
    ensures r.key == key
    ensures r.direction == Desc <==> cfg == SortConfig(key, Asc)
  {
    var direction := if cfg.key == key && cfg.direction == Asc then Desc else Asc;
    SortConfig(key, direction)
  }

  /** Two clicks on the column already sorted by restore the configuration;
      from any configuration, two clicks on one column end descending. */
  lemma ToggleSortTwice(cfg: SortConfig, key: Column)
    ensures cfg.key == key ==> ToggleSort(ToggleSort(cfg, key), key) == cfg
    ensures ToggleSort(ToggleSort(cfg, key), key).direction == (if cfg == SortConfig(key, Asc) then Asc else Desc)
  {
  }

  // ---------------------------------------------------------------------
  // Changes to the list

  /** `data.find(item => item.id === id)`: the first room with that id. */
  function FindById(data: seq<Room>, id: int): (r: Option<Room>)
    ensures r.None? <==> forall i | 0 <= i < |data| :: data[i].id != id
    ensures r.Some? ==> exists i | 0 <= i < |data| :: data[i] == r.value && r.value.id == id &&
                          forall j | 0 <= j < i :: data[j].id != id
  {
    if data == [] then None
    else if data[0].id == id then Some(data[0])
    else
      var rest := FindById(data[1..], id);
      assert forall i | 1 <= i < |data| :: data[i] == data[1..][i - 1];
      rest
  }

  function HasOtherId(id: int): Room -> bool {
    (x: Room) => x.id != id
  }

  /** A confirmed `handleDelete(id)`: every room with that id goes and the
      others stay, in order. */
  function DeleteRoom(data: seq<Room>, id: int): (r: seq<Room>)
    ensures forall x | x in r :: x in data && x.id != id
    ensures forall x | x in data && x.id != id :: x in r
    ensures IsSubsequence(r, data)
    ensures forall x :: multiset(r)[x] == if x.id != id then multiset(data)[x] else 0
    ensures (forall x | x in data :: x.id != id) ==> r == data
  {
    FilterMembers(data, HasOtherId(id));
    FilterSubsequence(data, HasOtherId(id));
    forall x
      ensures multiset(Filter(data, HasOtherId(id)))[x] == if x.id != id then multiset(data)[x] else 0
    {
      FilterCounts(data, HasOtherId(id), x);
    }
    assert (forall x | x in data :: x.id != id) ==> Filter(data, HasOtherId(id)) == data by {
      if forall x | x in data :: x.id != id {
        FilterKeepsAll(data, HasOtherId(id));
      }
    }
    Filter(data, HasOtherId(id))
  }

  /** Deleting keeps the remaining ids unique. */
  lemma DeleteKeepsIdsUnique(data: seq<Room>, id: int)
    requires UniqueIds(data, RoomId)
    ensures UniqueIds(DeleteRoom(data, id), RoomId)
  {
    SubsequenceKeepsUniqueIds(DeleteRoom(data, id), data, RoomId);
  }

  /** One change made through the form's inputs: each input sets its own
      field of the form, and none of them sets the id. */
  datatype FormInput =
    | NamaInput(nama: string)
    | KapasitasInput(kapasitas: int)
    | KategoriInput(kategori: string)
    | HargaInput(harga: int)
    | StatusInput(status: string)

  /** `setFormData({ ...formData, field: value })`: the changed input's field
      takes the new value; the id and every other field keep theirs. */
  function ApplyInput(form: RoomForm, input: FormInput): (r: RoomForm)
    ensures r.id == form.id
    ensures r.nama == (if input.NamaInput? then input.nama else form.nama)
    ensures r.kapasitas == (if input.KapasitasInput? then input.kapasitas else form.kapasitas)
    ensures r.kategori == (if input.KategoriInput? then input.kategori else form.kategori)
    ensures r.harga == (if input.HargaInput? then input.harga else form.harga)
    ensures r.status == (if input.StatusInput? then input.status else form.status)
  {
    match input
    case NamaInput(v) => form.(nama := v)
    case KapasitasInput(v) => form.(kapasitas := v)
    case KategoriInput(v) => form.(kategori := v)
    case HargaInput(v) => form.(harga := v)
    case StatusInput(v) => form.(status := v)
  }

  /** What the browser demands before it submits the add or edit form: the
      text inputs marked `required` are not empty. The status select always
      has an option selected, and the number inputs hold integers in this
      model, so neither can hold the form back. */
  predicate Complete(form: RoomForm) {
    form.nama != "" && form.kategori != ""
  }

  /** The room the form describes, under the given id. */
  function FormRoom(form: RoomForm, id: int): Room {
    Room(id, form.nama, form.kapasitas, form.kategori, form.harga, form.status)
  }

  /** The form filled from a room by the Edit button. */
  function RoomToForm(r: Room): (f: RoomForm)
    ensures f.id == Some(r.id) && FormRoom(f, r.id) == r
  {
    RoomForm(Some(r.id), r.nama, r.kapasitas, r.kategori, r.harga, r.status)
  }

  /** `handleAddSubmit`: the form's room is appended with id `length + 1`. */
  function AddRoom(data: seq<Room>, form: RoomForm): (r: seq<Room>)
    ensures |r| == |data| + 1 && r[..|data|] == data
    ensures r[|data|] == FormRoom(form, |data| + 1)
  {
    data + [FormRoom(form, |data| + 1)]
  }

  /** Ids drawn from 1 to the length of the list, as when a fixture numbers
      its rooms 1, 2, 3, ... and nothing has been deleted since. */
  ghost predicate IdsWithinLength(data: seq<Room>) {
    forall i | 0 <= i < |data| :: 1 <= data[i].id <= |data|
  }

  /** While every id lies within 1 to the length of the list, the id that
      `handleAddSubmit` assigns is new, and unique ids stay unique. */
  lemma AddRoomFreshWhileIdsWithinLength(data: seq<Room>, form: RoomForm)
    requires IdsWithinLength(data)
    ensures forall i | 0 <= i < |data| :: data[i].id != |data| + 1
    ensures UniqueIds(data, RoomId) ==> UniqueIds(AddRoom(data, form), RoomId)
    ensures IdsWithinLength(AddRoom(data, form))
  {
    var r := AddRoom(data, form);
    if UniqueIds(data, RoomId) {
      forall i, j | 0 <= i < j < |r|
        ensures RoomId(r[i]) != RoomId(r[j])
      {
        if j < |data| {
          assert r[i] == data[i] && r[j] == data[j];
        } else {
          assert r[i] == data[i];
        }
      }
    }
  }

  /** After a deletion the length-based id can repeat one still in use:
      rooms 1 and 2, delete room 1, add a room, and two rooms have id 2. */
  lemma AddAfterDeleteCanRepeatId(form: RoomForm)
    ensures var data := [Room(1, "A", 10, "K", 100, "Available"), Room(2, "B", 20, "K", 200, "Available")];
      var after := AddRoom(DeleteRoom(data, 1), form);
      |after| == 2 && after[0].id == 2 && after[1].id == 2
  {
    var data := [Room(1, "A", 10, "K", 100, "Available"), Room(2, "B", 20, "K", 200, "Available")];
    assert Filter(data, HasOtherId(1)) == [data[1]] by {
      assert data == [data[0]] + [data[1]];
      assert data[1..] == [data[1]];
      assert data[1..][1..] == [];
    }
  }

  /** `handleEditSubmit`: every room whose id equals the form's id is
      replaced by the form's room; a form without an id matches nothing. */
  function EditRoom(data: seq<Room>, form: RoomForm): (r: seq<Room>)
    ensures |r| == |data|
    ensures forall i | 0 <= i < |data| :: r[i].id == data[i].id
    ensures forall i | 0 <= i < |data| :: r[i] == if form.id == Some(data[i].id) then FormRoom(form, data[i].id) else data[i]
  {
    seq(|data|, i requires 0 <= i < |data| =>
      if form.id == Some(data[i].id) then FormRoom(form, data[i].id) else data[i])
  }

  /** Editing keeps every id, so unique ids stay unique, and submitting the
      same form twice changes nothing the second time. */
  lemma EditRoomKeepsIds(data: seq<Room>, form: RoomForm)
    ensures UniqueIds(data, RoomId) ==> UniqueIds(EditRoom(data, form), RoomId)
    ensures EditRoom(EditRoom(data, form), form) == EditRoom(data, form)
  {
    var r := EditRoom(data, form);
    if UniqueIds(data, RoomId) {
      forall i, j | 0 <= i < j < |r|
        ensures RoomId(r[i]) != RoomId(r[j])
      {
        assert RoomId(data[i]) != RoomId(data[j]);
      }
    }
  }

  // ---------------------------------------------------------------------
  // The page's state and its handlers

  class RoomPage {
    var data: seq<Room>
    var formData: RoomForm
    var searchTerm: string
    var sortConfig: SortConfig
    var currentPage: nat

    /** The page once the fixture has loaded. */
    constructor (fixture: seq<Room>)
      ensures data == fixture && formData == EmptyForm && searchTerm == ""
      ensures sortConfig == InitialSort && currentPage == 1
    {
      data := fixture;
      formData := EmptyForm;
      searchTerm := "";
      sortConfig := InitialSort;
      currentPage := 1;
    }

    /** `sortedData`: the rooms the search matches, in the chosen order. */
    function SortedRows(): (r: seq<Room>)
      reads this
      ensures forall x | x in r :: x in data && Matches(x, searchTerm)
    {
      var filtered := FilteredData(data, searchTerm);
      var r := SortedData(filtered, sortConfig);
      assert forall x | x in r :: x in filtered by {
        forall x | x in r
          ensures x in filtered
        {
          assert x in multiset(r);
        }
      }
      r
    }

    /** `paginatedData`: the rows of the current page of the sorted rooms;
        at most five, each one a room the search matches, and none on page
        0, which Next reaches when nothing matches. */
    function PaginatedData(): (rows: seq<Room>)
      reads this
      ensures |rows| <= RowsPerPage
      ensures currentPage == 0 ==> rows == []
      ensures forall x | x in rows :: x in data && Matches(x, searchTerm)
    {
      var sorted := SortedRows();
      var rows := Page(sorted, currentPage, RowsPerPage);
      assert forall x | x in rows :: x in sorted;
      rows
    }

    /** From page 1 on, the visible rows are `sortedData.slice((p - 1) * 5,
        p * 5)`: the sorted rooms between those positions, both cut down to
        the number of sorted rooms. */
    lemma PaginatedDataRows()
      ensures currentPage >= 1 ==>
        PaginatedData() == SortedRows()[Min((currentPage - 1) * RowsPerPage, |SortedRows()|)..Min(currentPage * RowsPerPage, |SortedRows()|)]
    {
      if currentPage >= 1 {
        ProductNonNegative(currentPage - 1, RowsPerPage);
        var lo: nat := (currentPage - 1) * RowsPerPage;
        assert currentPage * RowsPerPage == lo + RowsPerPage;
        PageSlice(SortedRows(), currentPage, RowsPerPage, lo);
      }
    }

    /** `Math.ceil(sortedData.length / rowsPerPage)`. */
    function TotalPages(): (n: nat)
      reads this
      ensures n * RowsPerPage >= |SortedRows()|
      ensures n > 0 ==> (n - 1) * RowsPerPage < |SortedRows()|
      ensures n == 0 <==> SortedRows() == []
    {
      PageCount(|SortedRows()|, RowsPerPage)
    }

    /** Typing in the search box. The current page is kept. */
    method SetSearchTerm(term: string)
      modifies this
      ensures searchTerm == term
      ensures data == old(data) && formData == old(formData)
      ensures sortConfig == old(sortConfig) && currentPage == old(currentPage)
    {
      searchTerm := term;
    }

    method HandleSort(key: Column)
      modifies this
      ensures sortConfig == ToggleSort(old(sortConfig), key)
      ensures data == old(data) && formData == old(formData)
      ensures searchTerm == old(searchTerm) && currentPage == old(currentPage)
    {
      var direction := Asc;
      if sortConfig.key == key && sortConfig.direction == Asc {
        direction := Desc;
      }
      sortConfig := SortConfig(key, direction);
    }

    /** The Delete button; `confirmed` is the answer to the confirmation
      dialog. */
    method HandleDelete(id: int, confirmed: bool)
      modifies this
      ensures data == if confirmed then DeleteRoom(old(data), id) else old(data)
      ensures formData == old(formData) && searchTerm == old(searchTerm)
      ensures sortConfig == old(sortConfig) && currentPage == old(currentPage)
    {
      if confirmed {
        data := DeleteRoom(data, id);
      }
    }

    /** The Edit button of a row on screen fills the form from that room. */
    method OpenEditModal(id: int)
      requires exists i | 0 <= i < |data| :: data[i].id == id
      modifies this
      ensures FindById(data, id).Some? && formData == RoomToForm(FindById(data, id).value)
      ensures data == old(data) && searchTerm == old(searchTerm)
      ensures sortConfig == old(sortConfig) && currentPage == old(currentPage)
    {
      var found := FindById(data, id);
      formData := RoomToForm(found.value);
    }

    /** An input of the add or edit form changed: its field takes the value;
        the form's id, and so the room an edit will replace, stays. */
    method SetFormData(input: FormInput)
      modifies this
      ensures formData == ApplyInput(old(formData), input)
      ensures formData.id == old(formData.id)
      ensures data == old(data) && searchTerm == old(searchTerm)
      ensures sortConfig == old(sortConfig) && currentPage == old(currentPage)
    {
      formData := ApplyInput(formData, input);
    }

    /** Submitting the add form: the browser holds back an incomplete form;
        a complete one is appended and the form is reset. */
    method HandleAddSubmit()
      modifies this
      ensures Complete(old(formData)) ==> data == AddRoom(old(data), old(formData)) && formData == EmptyForm
      ensures !Complete(old(formData)) ==> data == old(data) && formData == old(formData)
      ensures searchTerm == old(searchTerm) && sortConfig == old(sortConfig) && currentPage == old(currentPage)
    {
      if Complete(formData) {
        var newData := FormRoom(formData, |data| + 1);
        data := data + [newData];
        formData := EmptyForm;
      }
    }

    /** Submitting the edit form: the browser holds back an incomplete form;
        a complete one replaces the rooms with its id and is reset. */
    method HandleEditSubmit()
      modifies this
      ensures Complete(old(formData)) ==> data == EditRoom(old(data), old(formData)) && formData == EmptyForm
      ensures !Complete(old(formData)) ==> data == old(data) && formData == old(formData)
      ensures searchTerm == old(searchTerm) && sortConfig == old(sortConfig) && currentPage == old(currentPage)
    {
      if Complete(formData) {
        data := EditRoom(data, formData);
        formData := EmptyForm;
      }
    }

    /** The Previous button (disabled on page 1, where it would not move). */
    method Previous()
      modifies this
      ensures currentPage == ClampedPrevious(old(currentPage))
      ensures data == old(data) && formData == old(formData)
      ensures searchTerm == old(searchTerm) && sortConfig == old(sortConfig)
    {
      if currentPage != 1 {
        currentPage := Max(currentPage - 1, 1);
      }
    }

    /** The Next button (disabled on the last page, where it would not move). */
    method Next()
      modifies this
      ensures currentPage == ClampedNext(old(currentPage), old(TotalPages()))
      ensures data == old(data) && formData == old(formData)
      ensures searchTerm == old(searchTerm) && sortConfig == old(sortConfig)
    {
      var total := TotalPages();
      if currentPage != total {
        currentPage := Min(currentPage + 1, total);
      }
    }
  }
}
