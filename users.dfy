/** The user page (src/app/user/page.tsx): a table of users searched by
    name, sortable by name or email, paged ten rows at a time, with a modal
    form that adds a user or edits the one chosen, and a delete button. */
module Users {
  import opened Options
  import opened Strings
  import opened ListView
  import opened StableSort

  datatype User = User(id: int, name: string, email: string)

  /** The modal's form. */
  datatype UserForm = UserForm(name: string, email: string)

  const EmptyForm := UserForm("", "")

  /** The headers that sort by text. */
  datatype Column = Name | Email

  const ItemsPerPage: nat := 10

  /** The page numbers this page can show: never below 1. */
  type PageNumber = n: int | n >= 1 witness 1

  function UserId(u: User): int {
    u.id
  }

  // ---------------------------------------------------------------------
  // Search

  /** The lower-cased name contains the lower-cased term. */
  predicate Matches(u: User, term: string) {
    Contains(Lower(u.name), Lower(term))
  }

  function MatchesTerm(term: string): User -> bool {
    (u: User) => Matches(u, term)
  }

  /** `filteredUsers`: the users whose name contains the term. */
  function FilteredUsers(users: seq<User>, term: string): (r: seq<User>)
    ensures forall x | x in r :: x in users && Matches(x, term)
    ensures forall x | x in users :: x in r <==> Contains(Lower(x.name), Lower(term))
  {
    FilterMembers(users, MatchesTerm(term));
    Filter(users, MatchesTerm(term))
  }

  /** The filter keeps matching users in their order; an empty term keeps
      them all; the case of the term does not matter; the e-mail is never
      searched. */
  lemma SearchProperties(users: seq<User>, term: string, other: string)
    ensures IsSubsequence(FilteredUsers(users, term), users)
    ensures forall x | x in users :: multiset(FilteredUsers(users, term))[x] == if Matches(x, term) then multiset(users)[x] else 0
    ensures term == "" ==> FilteredUsers(users, term) == users
    ensures Lower(term) == Lower(other) ==> FilteredUsers(users, term) == FilteredUsers(users, other)
    ensures forall u: User, e: string :: Matches(u, term) == Matches(u.(email := e), term)
  {
    FilterSubsequence(users, MatchesTerm(term));
    forall x | x in users
      ensures multiset(FilteredUsers(users, term))[x] == if Matches(x, term) then multiset(users)[x] else 0
    {
      FilterCounts(users, MatchesTerm(term), x);
    }
    if term == "" {
      forall x | x in users
        ensures MatchesTerm(term)(x)
      {
        ContainsEmpty(Lower(x.name));
      }
      FilterKeepsAll(users, MatchesTerm(term));
    }
    if Lower(term) == Lower(other) {
      FilterCongruent(users, MatchesTerm(term), MatchesTerm(other));
    }
  }

  // ---------------------------------------------------------------------
  // Sort

  /** `a[sortBy]`, compared with `localeCompare`. */
  function ColumnKey(u: User, c: Column): (k: SortKey)
    ensures k.Str?
    ensures c == Name ==> k.s == u.name
    ensures c == Email ==> k.s == u.email
  {
    match c
    case Name => Str(u.name)
    case Email => Str(u.email)
  }

  function KeyOf(c: Column): User -> SortKey {
    (u: User) => ColumnKey(u, c)
  }

  /** `sortedUsers`: the filtered users as they are until a header is
      clicked, then ordered by that column; ties keep their order. */
  function SortedUsers(filtered: seq<User>, sortBy: Option<Column>, sortOrder: Direction): (r: seq<User>)
    ensures multiset(r) == multiset(filtered)
    ensures sortBy.None? ==> r == filtered
    ensures sortBy.Some? ==> Sorted(r, KeyOf(sortBy.value), sortOrder)
    ensures sortBy.Some? ==> forall k :: KeyClass(r, KeyOf(sortBy.value), k) == KeyClass(filtered, KeyOf(sortBy.value), k)
  {
    match sortBy
    case None => filtered
    case Some(c) =>
      SortPermutes(filtered, KeyOf(c), sortOrder);
      SortSorted(filtered, KeyOf(c), sortOrder);
      SortStable(filtered, KeyOf(c), sortOrder);
      Sort(filtered, KeyOf(c), sortOrder)
  }

  /** `handleSort`: the clicked column becomes the sort column and the order
      flips, whichever column was sorted before. */
  function ToggleSort(sortOrder: Direction, column: Column): (r: (Option<Column>, Direction))
    ensures r.0 == Some(column)
    ensures r.1 != sortOrder
  {
    (Some(column), Flip(sortOrder))
  }

  /** Because the order flips on every click, the first click on a header of
      the freshly loaded page sorts descending, and so does a click on a new
      header while the table is ascending. */
  lemma FirstClickSortsDescending(column: Column, other: Column)
    ensures ToggleSort(Asc, column).1 == Desc
    ensures ToggleSort(ToggleSort(Desc, other).1, column) == (Some(column), Desc)
  {
  }

  // ---------------------------------------------------------------------
  // Submitting the form

  predicate Complete(form: UserForm) {
    form.name != "" && form.email != ""
  }

  /** `{...user, ...formData}`: the form's name and e-mail over the user's. */
  function Merge(u: User, form: UserForm): (r: User)
    ensures r.id == u.id && r.name == form.name && r.email == form.email
  {
    u.(name := form.name, email := form.email)
  }

  /** Every user with the edited user's id takes the form's name and e-mail. */
  function EditUsers(users: seq<User>, editing: User, form: UserForm): (r: seq<User>)
    ensures |r| == |users|
    ensures forall i | 0 <= i < |users| :: r[i].id == users[i].id
    ensures forall i | 0 <= i < |users| && users[i].id == editing.id :: r[i].name == form.name && r[i].email == form.email
    ensures forall i | 0 <= i < |users| && users[i].id != editing.id :: r[i] == users[i]
  {
    seq(|users|, i requires 0 <= i < |users| =>
      if users[i].id == editing.id then Merge(users[i], form) else users[i])
  }

  /** The effect of `handleSubmit` on the list: None when the name or the
      e-mail is empty (the page alerts and keeps everything); with a user
      being edited, that user's entries take the form; otherwise the form is
      appended under an id one more than the largest in use. */
  function SubmitUser(users: seq<User>, form: UserForm, editing: Option<User>): (r: Option<seq<User>>)
    ensures r.None? <==> !Complete(form)
    ensures r.Some? && editing.Some? ==> r.value == EditUsers(users, editing.value, form)
    ensures r.Some? && editing.None? ==> |r.value| == |users| + 1 && r.value[..|users|] == users
    ensures r.Some? && editing.None? ==> var u := r.value[|users|];
      u.name == form.name && u.email == form.email && forall i | 0 <= i < |users| :: users[i].id < u.id
    ensures r.Some? && editing.None? ==> r.value[|users|].id == NextId(users, UserId)
  {
    if !Complete(form) then
      None
    else if editing.Some? then
      Some(EditUsers(users, editing.value, form))
    else
      Some(users + [User(NextId(users, UserId), form.name, form.email)])
  }

  /** Submitting keeps ids unique, whether it edits or adds. */
  lemma SubmitKeepsIdsUnique(users: seq<User>, form: UserForm, editing: Option<User>)
    requires UniqueIds(users, UserId)
    ensures SubmitUser(users, form, editing).Some? ==> UniqueIds(SubmitUser(users, form, editing).value, UserId)
  {
    var r := SubmitUser(users, form, editing);
    if r.Some? {
      var s := r.value;
      forall i, j | 0 <= i < j < |s|
        ensures UserId(s[i]) != UserId(s[j])
      {
        if j < |users| {
          assert UserId(users[i]) != UserId(users[j]);
        }
        if editing.None? {
          assert s[i] == users[i];
          if j < |users| {
            assert s[j] == users[j];
          }
        }
      }
    }
  }

  /** An edit submitted twice changes nothing the second time, and an edit
      of a user with unique id touches exactly one row. */
  lemma EditUsersProperties(users: seq<User>, editing: User, form: UserForm, k: nat)
    requires k < |users| && users[k].id == editing.id && UniqueIds(users, UserId)
    ensures EditUsers(EditUsers(users, editing, form), editing, form) == EditUsers(users, editing, form)
    ensures EditUsers(users, editing, form)[k] == Merge(users[k], form)
    ensures forall i | 0 <= i < |users| && i != k :: EditUsers(users, editing, form)[i] == users[i]
  {
    forall i | 0 <= i < |users| && i != k
      ensures EditUsers(users, editing, form)[i] == users[i]
    {
      if i < k {
        assert UserId(users[i]) != UserId(users[k]);
      } else {
        assert UserId(users[k]) != UserId(users[i]);
      }
    }
  }

  /** `handleDelete` after a confirmed dialog: the users with that id go. */
  function HasOtherId(id: int): User -> bool {
    (u: User) => u.id != id
  }

  function DeleteUser(users: seq<User>, id: int): (r: seq<User>)
    ensures forall x | x in r :: x in users && x.id != id
    ensures forall x | x in users && x.id != id :: x in r
    ensures IsSubsequence(r, users)
    ensures forall x :: multiset(r)[x] == if x.id != id then multiset(users)[x] else 0
  {
    FilterMembers(users, HasOtherId(id));
    FilterSubsequence(users, HasOtherId(id));
    forall x
      ensures multiset(Filter(users, HasOtherId(id)))[x] == if x.id != id then multiset(users)[x] else 0
    {
      FilterCounts(users, HasOtherId(id), x);
    }
    Filter(users, HasOtherId(id))
  }

  /** Deleting keeps ids unique: the survivors keep their relative order. */
  lemma DeleteKeepsIdsUnique(users: seq<User>, id: int)
    requires UniqueIds(users, UserId)
    ensures UniqueIds(DeleteUser(users, id), UserId)
  {
    SubsequenceKeepsUniqueIds(DeleteUser(users, id), users, UserId);
  }

  // ---------------------------------------------------------------------
  // The page's state and its handlers

  class UsersPage {
    var users: seq<User>
    var searchTerm: string
    var currentPage: PageNumber
    var sortBy: Option<Column>
    var sortOrder: Direction
    var formData: UserForm
    var editingUser: Option<User>

    /** The page once the fixture has loaded. */
    constructor (fixture: seq<User>)
      ensures users == fixture && searchTerm == "" && currentPage == 1
      ensures sortBy == None && sortOrder == Asc
      ensures formData == EmptyForm && editingUser == None
    {
      users := fixture;
      searchTerm := "";
      currentPage := 1;
      sortBy := None;
      sortOrder := Asc;
      formData := EmptyForm;
      editingUser := None;
    }

    /** `sortedUsers`: the users the search matches, in the chosen order. */
    function SortedRows(): (r: seq<User>)
      reads this
      ensures forall x | x in r :: x in users && Matches(x, searchTerm)
    {
      var filtered := FilteredUsers(users, searchTerm);
      var r := SortedUsers(filtered, sortBy, sortOrder);
      assert forall x | x in r :: x in filtered by {
        forall x | x in r
          ensures x in filtered
        {
          assert x in multiset(r);
        }
      }
      r
    }

    /** `paginatedUsers`: at most ten rows, starting at row
        `(currentPage - 1) * 10` of the sorted users. */
    function PaginatedUsers(): (rows: seq<User>)
      reads this
      ensures |rows| <= ItemsPerPage
      ensures |rows| == Max(0, Min(ItemsPerPage, |SortedRows()| - (currentPage - 1) * ItemsPerPage))
      ensures forall i | 0 <= i < |rows| :: rows[i] == SortedRows()[(currentPage - 1) * ItemsPerPage + i]
      ensures forall x | x in rows :: x in users && Matches(x, searchTerm)
    {
      var sorted := SortedRows();
      var rows := Page(sorted, currentPage, ItemsPerPage);
      assert forall x | x in rows :: x in sorted;
      rows
    }

    /** `Math.ceil(sortedUsers.length / itemsPerPage)`. */
    function TotalPages(): (n: nat)
      reads this
      ensures n * ItemsPerPage >= |SortedRows()|
      ensures n > 0 ==> (n - 1) * ItemsPerPage < |SortedRows()|
      ensures n == 0 <==> SortedRows() == []
    {
      PageCount(|SortedRows()|, ItemsPerPage)
    }

    /** The "No" column: the row's position in the whole sorted list,
        counted from 1. */
    function RowNumber(index: nat): (n: int)
      reads this
      requires index < |PaginatedUsers()|
      ensures 1 <= n <= |SortedRows()|
      ensures SortedRows()[n - 1] == PaginatedUsers()[index]
    {
      var rows := PaginatedUsers();
      var k := (currentPage - 1) * ItemsPerPage + index;
      assert rows[index] == SortedRows()[k];
      k + 1
    }

    /** The numbers in the "No" column continue from page to page: the
        first row of page p is numbered `(p - 1) * 10 + 1`, and each
        further row one more than the row above it. */
    lemma RowNumbersConsecutive()
      ensures PaginatedUsers() != [] ==> RowNumber(0) == (currentPage - 1) * ItemsPerPage + 1
      ensures forall i | 0 < i < |PaginatedUsers()| :: RowNumber(i) == RowNumber(i - 1) + 1
    {
    }

    /** Typing in the search box also returns to page 1. */
    method SetSearchTerm(term: string)
      modifies this
      ensures searchTerm == term && currentPage == 1
      ensures users == old(users) && sortBy == old(sortBy) && sortOrder == old(sortOrder)
      ensures formData == old(formData) && editingUser == old(editingUser)
    {
      searchTerm := term;
      currentPage := 1;
    }

    method HandleSort(column: Column)
      modifies this
      ensures (sortBy, sortOrder) == ToggleSort(old(sortOrder), column)
      ensures users == old(users) && searchTerm == old(searchTerm) && currentPage == old(currentPage)
      ensures formData == old(formData) && editingUser == old(editingUser)
    {
      sortBy := Some(column);
      sortOrder := if sortOrder == Asc then Desc else Asc;
    }

    /** The Delete button; `confirmed` is the answer to the confirmation
        dialog. */
    method HandleDelete(id: int, confirmed: bool)
      modifies this
      ensures users == if confirmed then DeleteUser(old(users), id) else old(users)
      ensures searchTerm == old(searchTerm) && currentPage == old(currentPage)
      ensures sortBy == old(sortBy) && sortOrder == old(sortOrder)
      ensures formData == old(formData) && editingUser == old(editingUser)
    {
      if confirmed {
        users := DeleteUser(users, id);
      }
    }

    /** The Edit button: the user becomes the one being edited and the form
        shows its name and e-mail. */
    method HandleEdit(user: User)
      modifies this
      ensures editingUser == Some(user) && formData == UserForm(user.name, user.email)
      ensures users == old(users) && searchTerm == old(searchTerm) && currentPage == old(currentPage)
      ensures sortBy == old(sortBy) && sortOrder == old(sortOrder)
    {
      editingUser := Some(user);
      formData := UserForm(user.name, user.email);
    }

    /** Typing in the modal's name or e-mail input. */
    method SetFormData(form: UserForm)
      modifies this
      ensures formData == form
      ensures users == old(users) && searchTerm == old(searchTerm) && currentPage == old(currentPage)
      ensures sortBy == old(sortBy) && sortOrder == old(sortOrder) && editingUser == old(editingUser)
    {
      formData := form;
    }

    /** An incomplete form changes nothing (the page only alerts); a
        complete one edits or adds, then the form and the edited user are
        cleared. */
    method HandleSubmit()
      modifies this
      ensures SubmitUser(old(users), old(formData), old(editingUser)).None? ==>
        users == old(users) && formData == old(formData) && editingUser == old(editingUser)
      ensures SubmitUser(old(users), old(formData), old(editingUser)).Some? ==>
        users == SubmitUser(old(users), old(formData), old(editingUser)).value && formData == EmptyForm && editingUser == None
      ensures searchTerm == old(searchTerm) && currentPage == old(currentPage)
      ensures sortBy == old(sortBy) && sortOrder == old(sortOrder)
    {
      if formData.name == "" || formData.email == "" {
        return;
      }
      if editingUser.Some? {
        users := EditUsers(users, editingUser.value, formData);
      } else {
        var newId := if |users| > 0 then MaxId(users, UserId) + 1 else 1;
        users := users + [User(newId, formData.name, formData.email)];
      }
      formData := EmptyForm;
      editingUser := None;
    }

    /** The Previous button, disabled on page 1. */
    method Previous()
      modifies this
      ensures currentPage == if old(currentPage) == 1 then 1 else old(currentPage) - 1
      ensures users == old(users) && searchTerm == old(searchTerm)
      ensures sortBy == old(sortBy) && sortOrder == old(sortOrder)
      ensures formData == old(formData) && editingUser == old(editingUser)
    {
      if currentPage != 1 {
        currentPage := currentPage - 1;
      }
    }

    /** The Next button, disabled only when the current page is the last:
        from a page within range it stays within range, but when no user
        matches the search (zero pages) it is never disabled and counts on
        past the end. */
    method Next()
      modifies this
      ensures old(currentPage) != old(TotalPages()) ==> currentPage == old(currentPage) + 1
      ensures old(currentPage) == old(TotalPages()) ==> currentPage == old(currentPage)
      ensures old(currentPage) <= old(TotalPages()) ==> currentPage <= TotalPages()
      ensures users == old(users) && searchTerm == old(searchTerm)
      ensures sortBy == old(sortBy) && sortOrder == old(sortOrder)
      ensures formData == old(formData) && editingUser == old(editingUser)
    {
      if currentPage != TotalPages() {
        currentPage := currentPage + 1;
      }
    }

    /** The numbered button `i + 1`, one for each page. */
    method GoToPage(i: nat)
      requires i < TotalPages()
      modifies this
      ensures currentPage == i + 1 && currentPage <= TotalPages()
      ensures PaginatedUsers() != []
      ensures users == old(users) && searchTerm == old(searchTerm)
      ensures sortBy == old(sortBy) && sortOrder == old(sortOrder)
      ensures formData == old(formData) && editingUser == old(editingUser)
    {
      currentPage := i + 1;
      PagesCover(SortedRows(), ItemsPerPage);
    }
  }
}
