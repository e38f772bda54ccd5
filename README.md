# Room, booking and user list pages

This project models the three list pages of a small Next.js administration
front end:

- the **room management** page (`src/app/room/page.tsx`);
- the **booking** page (`src/app/booking/page.tsx`);
- the **user** page (`src/app/user/page.tsx`).

Each page keeps a list of records in React state. It derives the table it shows
in three steps:

1. filter the list by a search term;
2. sort it by a clicked column;
3. cut out one page of rows.

Its handlers add, edit and delete records and move between pages.

The model has seven files:

- `strings.dfy` (`Strings`) holds the JavaScript string operations the pages rely on: `toLowerCase`, `includes`, `<` on strings and `String(number)`.
- `listview.dfy` (`ListView`) holds the list operations shared by all three pages:
  - `filter`;
  - `slice` with its index rules;
  - page counting with `Math.ceil`;
  - the Previous/Next clamps;
  - the `Math.max(...ids) + 1` id rule.
- `stablesort.dfy` (`StableSort`) models `Array.prototype.sort`. With a consistent comparator it returns the unique stable sorted permutation of its input. The model sorts by stable insertion and proves that the result is a permutation, is sorted, is stable, and is the only such ordering.
- `options.dfy` (`Options`) holds an `Option` type for nullable and optional fields.
- `rooms.dfy`, `bookings.dfy` and `users.dfy` each model one page:
  - a datatype for its record and its form;
  - the derivations (filter, sort, paginate) as functions;
  - a class whose fields are the page's state and whose methods are its event handlers.

## Model

| member | source | states |
|---|---|---|
| Strings.Lower | src/app/room/page.tsx:35 | `toLowerCase` keeps the length, leaves no upper-case letter and changes only upper-case letters, each to its lower-case form |
| Strings.Contains | src/app/room/page.tsx:35 | `includes` holds exactly when the needle occurs at some offset of the haystack |
| Strings.ContainsEmpty | src/app/booking/page.tsx:41-43 | the empty search term occurs in every string, so an empty search box hides nothing |
| Strings.StrLess | src/app/room/page.tsx:41-42 | defines `<` on two strings: compare the first characters, and on a tie the rest; the empty string is below every other |
| Strings.StrLessFirstDifference | src/app/room/page.tsx:41-42 | `a < b` exactly when `a` is a proper prefix of `b`, or at the first position where they differ `a` has the smaller character |
| Strings.StrLessIrreflexive | src/app/room/page.tsx:41-42 | no string is `<` itself |
| Strings.StrLessTransitive | src/app/room/page.tsx:41-42 | string `<` is transitive |
| Strings.StrLessTotal | src/app/room/page.tsx:41-42 | of two different strings one is `<` the other, so the comparator is consistent |
| Strings.NatToStringValue | src/app/room/page.tsx:35 | the decimal digits that `String(n)` produces denote `n` again |
| Strings.IntToString | src/app/room/page.tsx:35 | `String(n)` is a minus sign exactly when `n` is negative, then decimal digits with no leading zero (just "0" for zero) that read back as the magnitude of `n` |
| ListView.Filter | src/app/room/page.tsx:33-37 | the result is no longer than the input and every element it keeps passes the test |
| ListView.FilterCounts | src/app/room/page.tsx:33-37 | each passing element is kept exactly as many times as it occurs; failing elements are dropped |
| ListView.FilterMembers | src/app/room/page.tsx:33-37 | an element is in the result if and only if it is in the input and passes |
| ListView.FilterSubsequence | src/app/room/page.tsx:33-37 | the result is a subsequence of the input, so the filter never reorders |
| ListView.FilterCons | src/app/room/page.tsx:33-37 | the filter keeps the first element exactly when it passes, then filters the rest |
| ListView.FilterAppend | src/app/room/page.tsx:33-37 | filtering a concatenation is concatenating the filtered parts |
| ListView.FilterKeepsAll | src/app/room/page.tsx:33-37 | when every element passes, the list comes back unchanged |
| ListView.FilterDropsAll | src/app/room/page.tsx:33-37 | when no element passes, the result is empty |
| ListView.FilterCongruent | src/app/room/page.tsx:33-37 | two tests that agree on every element filter alike |
| ListView.FilterReverse | src/app/room/page.tsx:33-37 | filtering commutes with reversing |
| ListView.ReverseAppend | src/app/room/page.tsx:40-44 | reversing a concatenation concatenates the reversed parts in swapped order |
| ListView.JsSlice | src/app/room/page.tsx:47-50 | `s.slice(start, end)` is never longer than `s`; its contents are stated by `JsSliceElements` |
| ListView.JsSliceElements | src/app/room/page.tsx:47-50 | the slice holds the elements from the resolved start up to, not including, the resolved end, and is empty when the end is not after the start |
| ListView.SliceIndex | src/app/room/page.tsx:47-50 | a `slice` argument is clamped to `[0, len]`, with a negative argument counted back from the end |
| ListView.Page | src/app/room/page.tsx:47-50 | page `p` holds `min(size, len - (p-1)*size)` rows (none when that is negative or `p` is 0), and its row `i` is row `(p-1)*size + i` of the list |
| ListView.PageSlice | src/app/room/page.tsx:47-50 | page `k` is the slice from `(k-1)*size` to `k*size`, both cut down to the list's length |
| ListView.PageCount | src/app/room/page.tsx:213 | `Math.ceil(n / size)` is the fewest pages holding `n` rows: enough, one fewer is not, and zero exactly when `n` is zero |
| ListView.AllPagesPrefix | src/app/room/page.tsx:47-50 | pages 1 to k laid end to end are the first `k*size` rows |
| ListView.PagesCover | src/app/room/page.tsx:47-50 | pages 1 to the page count laid end to end are the whole list; each of them is non-empty and every later page is empty |
| ListView.PageAfterLastEmpty | src/app/room/page.tsx:213 | a page numbered beyond the page count is empty |
| ListView.PageUpToLastNonEmpty | src/app/room/page.tsx:213 | every page from 1 to the page count shows at least one row |
| ListView.ClampedPrevious | src/app/room/page.tsx:206 | Previous goes one page back and never below page 1 |
| ListView.ClampedNext | src/app/room/page.tsx:216-219 | Next goes one page on and never beyond the page count |
| ListView.MaxId | src/app/booking/page.tsx:96 | `Math.max(...ids)` bounds every id and is one of them |
| ListView.NextId | src/app/booking/page.tsx:96 | the new id exceeds every id in use, is 1 for an empty list, and otherwise is one more than an id in use |
| ListView.SubsequenceKeepsUniqueIds | src/app/user/page.tsx:52-56 | deleting elements cannot create a duplicate id |
| ListView.SubsequenceIn | src/app/user/page.tsx:52-56 | every element of a subsequence occurs in the full list |
| StableSort.Flip | src/app/booking/page.tsx:70 | flipping always changes the direction |
| StableSort.KeyLess | src/app/room/page.tsx:41-42 | defines `<` on the column values: numbers numerically, strings by `StrLess` |
| StableSort.Precedes | src/app/room/page.tsx:41-42 | defines when the comparator answers -1: `a < b` ascending, `b < a` descending |
| StableSort.Compare | src/app/room/page.tsx:40-44 | the comparator answers -1 exactly when the first row goes first, 1 exactly when the second does, and 0 exactly when the two keys are equal |
| StableSort.PrecedesIrreflexive | src/app/room/page.tsx:40-44 | the comparator never puts a key before itself |
| StableSort.KeyLessTransitive | src/app/room/page.tsx:40-44 | the key order is transitive |
| StableSort.PrecedesTransitive | src/app/room/page.tsx:40-44 | "comes before" is transitive in either direction |
| StableSort.PrecedesTotal | src/app/room/page.tsx:40-44 | of two different keys one comes before the other |
| StableSort.PrecedesAsymmetric | src/app/room/page.tsx:40-44 | two keys never each come before the other |
| StableSort.NotPrecedesTransitive | src/app/room/page.tsx:40-44 | "does not come after" is transitive |
| StableSort.Insert | src/app/room/page.tsx:40-44 | inserting one element lengthens the list by one |
| StableSort.Sort | src/app/room/page.tsx:40-44 | sorting keeps the length |
| StableSort.InsertPermutes | src/app/room/page.tsx:40-44 | insertion adds exactly the inserted element |
| StableSort.SortPermutes | src/app/room/page.tsx:40-44 | the sorted list is a permutation of its input |
| StableSort.SortedCons | src/app/room/page.tsx:40-44 | a row that goes after none of a sorted list's rows can be put in front of it and the list stays sorted |
| StableSort.InsertSorted | src/app/room/page.tsx:40-44 | inserting into a sorted list keeps it sorted |
| StableSort.SortSorted | src/app/room/page.tsx:40-44 | no row of the sorted list comes after a later row |
| StableSort.KeyClassCons | src/app/room/page.tsx:40-44 | the rows with one key of `x :: s` are `x` (if it has that key) followed by those of `s` |
| StableSort.InsertStable | src/app/room/page.tsx:40-44 | insertion puts the element before the equal-keyed rows already present |
| StableSort.SortStable | src/app/room/page.tsx:40-44 | rows with equal keys keep their relative order |
| StableSort.SortedTail | src/app/room/page.tsx:40-44 | the tail of a sorted list is sorted |
| StableSort.KeyClassNonEmpty | src/app/room/page.tsx:40-44 | a non-empty list has a non-empty class for its first key |
| StableSort.SortedClassesDetermine | src/app/room/page.tsx:40-44 | two sorted lists with the same rows per key are equal |
| StableSort.SortUnique | src/app/room/page.tsx:40-44 | any stable sorted permutation is the one the sort returns, so the sort's result does not depend on the algorithm |
| StableSort.SortIdempotent | src/app/room/page.tsx:40-44 | sorting a sorted list changes nothing, so sorting twice is sorting once |
| StableSort.DistinctKeysClassSmall | src/app/room/page.tsx:40-44 | with distinct keys each key class has at most one row |
| StableSort.DescendingReversesAscending | src/app/room/page.tsx:40-44 | with distinct keys the descending table is the ascending one reversed |
| Rooms.FieldTexts | src/app/room/page.tsx:34-35 | defines `Object.values(room)` passed through `String`: the id, name, capacity, category, price and status, numbers as decimal text |
| Rooms.Matches | src/app/room/page.tsx:34-35 | defines the search test: some field's text, lower-cased, contains the lower-cased term |
| Rooms.FilteredData | src/app/room/page.tsx:33-37 | a room is kept if and only if some field's text, lower-cased, contains the lower-cased term |
| Rooms.SearchProperties | src/app/room/page.tsx:33-37 | the search keeps matching rooms in order and with their multiplicity; an empty term keeps all; the term's case does not matter |
| Rooms.ColumnKey | src/app/room/page.tsx:41-42 | `a[sortConfig.key]`: capacity and price are compared as numbers, name, category and status as their raw text, not lower-cased |
| Rooms.SortedData | src/app/room/page.tsx:40-44 | the sorted rooms are a stable, sorted permutation of the filtered rooms for the chosen column and direction |
| Rooms.NumericColumnOrder | src/app/room/page.tsx:40-44 | sorted by capacity or price, the numbers never fall (ascending) or never rise (descending) down the table |
| Rooms.ToggleSort | src/app/room/page.tsx:52-58 | the clicked column becomes the key; the direction is descending exactly when that column was already sorted ascending |
| Rooms.ToggleSortTwice | src/app/room/page.tsx:52-58 | two clicks on the sorted column restore the configuration; two clicks on any column end descending unless it started ascending |
| Rooms.FindById | src/app/room/page.tsx:75 | `find` returns the first room with the id, and nothing exactly when no room has it |
| Rooms.DeleteRoom | src/app/room/page.tsx:68-72 | exactly the rooms with a different id remain, in order, each as many times as it occurred; with no room of that id the list is unchanged |
| Rooms.DeleteKeepsIdsUnique | src/app/room/page.tsx:68-72 | deleting keeps ids unique |
| Rooms.RoomToForm | src/app/room/page.tsx:74-78 | the edit form carries the room's id, and turning the form back into a room gives the same room |
| Rooms.AddRoom | src/app/room/page.tsx:80-89 | the form's room is appended after the existing rooms, with id `length + 1` |
| Rooms.AddRoomFreshWhileIdsWithinLength | src/app/room/page.tsx:84 | while ids lie in 1..length, the new id is unused, unique ids stay unique, and the condition still holds afterwards |
| Rooms.AddAfterDeleteCanRepeatId | src/app/room/page.tsx:84 | after a deletion the `length + 1` id can equal an id still in use |
| Rooms.Complete | src/app/room/page.tsx:233-336 | defines what the `required` text inputs of the add form (lines 233-262) and the edit form (lines 308-336) demand before the browser submits: a non-empty name and category |
| Rooms.ApplyInput | src/app/room/page.tsx:236-277 | `{ ...formData, field: value }` sets the changed input's field and keeps the id and every other field |
| Rooms.EditRoom | src/app/room/page.tsx:91-98 | each room whose id equals the form's id becomes the form's room; every other room and every id stay |
| Rooms.EditRoomKeepsIds | src/app/room/page.tsx:91-98 | editing keeps ids unique and submitting the same edit twice is the same as once |
| Rooms.RoomPage.constructor | src/app/room/page.tsx:6-20 | the initial state: the loaded rooms, an empty form and search, sorted by name ascending, page 1 |
| Rooms.RoomPage.SortedRows | src/app/room/page.tsx:40-44 | every sorted row is a room of the list that the search matches |
| Rooms.RoomPage.PaginatedData | src/app/room/page.tsx:47-50 | the visible rows are at most five and each is a matching room; page 0, which Next reaches when nothing matches, shows nothing |
| Rooms.RoomPage.PaginatedDataRows | src/app/room/page.tsx:47-50 | from page 1 on the visible rows are the sorted rooms from `(p-1)*5` up to `p*5`, both positions cut down to the number of sorted rooms |
| Rooms.RoomPage.TotalPages | src/app/room/page.tsx:213 | the page count is the fewest pages of five holding the sorted rooms, and zero exactly when none match |
| Rooms.RoomPage.SetSearchTerm | src/app/room/page.tsx:109 | typing sets the term and keeps the current page |
| Rooms.RoomPage.HandleSort | src/app/room/page.tsx:52-58 | the sort configuration becomes the toggled one; nothing else changes |
| Rooms.RoomPage.HandleDelete | src/app/room/page.tsx:68-72 | a confirmed delete removes the rooms with the id; a cancelled one changes nothing |
| Rooms.RoomPage.OpenEditModal | src/app/room/page.tsx:74-78 | the form is filled from the first room with the id |
| Rooms.RoomPage.SetFormData | src/app/room/page.tsx:236-277 | an input change sets that input's field of the form; the form's id never changes, so only the Edit button picks the room an edit replaces |
| Rooms.RoomPage.HandleAddSubmit | src/app/room/page.tsx:80-89 | a form with an empty name or category is held back and nothing changes; otherwise the form's room is appended with id `length + 1` and the form is reset |
| Rooms.RoomPage.HandleEditSubmit | src/app/room/page.tsx:91-98 | a form with an empty name or category is held back and nothing changes; otherwise the rooms with the form's id are replaced and the form is reset |
| Rooms.RoomPage.Previous | src/app/room/page.tsx:205-211 | the page becomes `max(p - 1, 1)` |
| Rooms.RoomPage.Next | src/app/room/page.tsx:215-223 | the page becomes `min(p + 1, page count)` |
| Bookings.FilteredData | src/app/booking/page.tsx:39-44 | a booking is kept if and only if its name, room or status (a missing one read as empty), lower-cased, contains the lower-cased term |
| Bookings.Matches | src/app/booking/page.tsx:41-43 | defines the search test: the name, room or status, read as empty when missing and lower-cased, contains the lower-cased term |
| Bookings.LowerOrEmpty | src/app/booking/page.tsx:41-43 | `item.field?.toLowerCase()` with the empty-string fallback: a missing field reads as empty; otherwise the same length with no upper-case letter |
| Bookings.SearchProperties | src/app/booking/page.tsx:39-44 | the search keeps order and each matching booking's multiplicity; an empty term keeps all; case does not matter; a booking with no name, room or status is found only by the empty term |
| Bookings.SortedData | src/app/booking/page.tsx:47-54 | the table is a stable, sorted permutation of the filtered bookings on the lower-cased text of the chosen column |
| Bookings.ColumnText | src/app/booking/page.tsx:48-49 | defines `a[sortBy]?.toString()` with a missing value read as empty: the id as decimal text, any other column's own text |
| Bookings.ColumnKey | src/app/booking/page.tsx:48-49 | every column, the id included, is compared as text with no upper-case letter |
| Bookings.IdTextOrder | src/app/booking/page.tsx:48-51 | as lower-cased text, id 10 comes before id 2 |
| Bookings.IdSortIsTextual | src/app/booking/page.tsx:48-51 | ids compare as text, so booking 10 sorts before booking 2 ascending |
| Bookings.ToggleSort | src/app/booking/page.tsx:68-75 | the clicked field becomes the sort field; clicking the current field flips the order, a new field starts ascending |
| Bookings.ToggleSortTwice | src/app/booking/page.tsx:68-75 | two clicks on the current field restore the order; two clicks on a new field end descending |
| Bookings.SetField | src/app/booking/page.tsx:78-83 | the changed input shows the new value and every other input keeps its own |
| Bookings.Complete | src/app/booking/page.tsx:90 | defines the validation that refuses the submit: name, room, date and status all non-empty |
| Bookings.SubmitBooking | src/app/booking/page.tsx:86-110 | the submit is refused exactly when a field is empty; otherwise the form is appended with id `Math.max(...ids) + 1`, or 1 for an empty list, which is above every id in use |
| Bookings.SubmitKeepsIdsUnique | src/app/booking/page.tsx:96-98 | a submitted booking keeps ids unique, and the first booking of an empty list gets id 1 |
| Bookings.GetStatusColor | src/app/booking/page.tsx:113-124 | green, yellow and red exactly for confirmed, pending and cancelled in any case, grey for anything else or a missing status |
| Bookings.StatusColorIgnoresCase | src/app/booking/page.tsx:113-124 | statuses equal up to case get the same colour, and each option of the status select gets its own |
| Bookings.BookingPage.constructor | src/app/booking/page.tsx:14-28 | the initial state: the loaded bookings, empty search and form, sorted by id ascending, page 1 |
| Bookings.BookingPage.FilteredRows | src/app/booking/page.tsx:38-57 | every row is a booking of the list that the search matches |
| Bookings.BookingPage.PaginatedData | src/app/booking/page.tsx:60-63 | at most five rows, rows `(p-1)*5` onward of the filtered table, each a matching booking; page 0 shows nothing |
| Bookings.BookingPage.TotalPages | src/app/booking/page.tsx:65 | the fewest pages of five holding the filtered rows, zero exactly when none match |
| Bookings.BookingPage.SetSearch | src/app/booking/page.tsx:211-214 | typing sets the term and returns to page 1 |
| Bookings.BookingPage.HandleSort | src/app/booking/page.tsx:68-75 | the sort field and order become the toggled ones |
| Bookings.BookingPage.HandleInputChange | src/app/booking/page.tsx:78-83 | the form takes the changed field |
| Bookings.BookingPage.HandleSubmit | src/app/booking/page.tsx:86-110 | an incomplete form changes nothing; a complete one is appended, the form reset and page 1 shown |
| Bookings.BookingPage.Previous | src/app/booking/page.tsx:331-337 | the page becomes `max(p - 1, 1)` |
| Bookings.BookingPage.Next | src/app/booking/page.tsx:341-347 | the page becomes `min(p + 1, page count)` |
| Users.FilteredUsers | src/app/user/page.tsx:23-27 | a user is kept if and only if the lower-cased name contains the lower-cased term |
| Users.Matches | src/app/user/page.tsx:25 | defines the search test: the lower-cased name contains the lower-cased term |
| Users.SearchProperties | src/app/user/page.tsx:23-27 | the search keeps order and each matching user's multiplicity; an empty term keeps all; case does not matter; the e-mail plays no part |
| Users.SortedUsers | src/app/user/page.tsx:29-35 | before any header click the filtered order is kept; afterwards the rows are a stable, sorted permutation on the chosen column |
| Users.ColumnKey | src/app/user/page.tsx:33 | `a[sortBy]`: the chosen column's text, name or e-mail, compared as a string |
| Users.ToggleSort | src/app/user/page.tsx:47-50 | the clicked column becomes the sort column and the order always flips |
| Users.FirstClickSortsDescending | src/app/user/page.tsx:47-50 | the first header click on the loaded page sorts descending, and so does a click on a new header while ascending |
| Users.Merge | src/app/user/page.tsx:73 | the merged user keeps its id and takes the form's name and e-mail |
| Users.Complete | src/app/user/page.tsx:65 | defines the validation that refuses the submit: name and e-mail both non-empty |
| Users.EditUsers | src/app/user/page.tsx:71-75 | users with the edited id take the form's name and e-mail; all others and all ids stay |
| Users.SubmitUser | src/app/user/page.tsx:64-84 | refused exactly when the name or e-mail is empty; edits the user being edited, or appends the form with id `Math.max(...ids) + 1`, or 1 for an empty list, which is above every id in use |
| Users.SubmitKeepsIdsUnique | src/app/user/page.tsx:70-79 | submitting, by edit or by add, keeps ids unique |
| Users.EditUsersProperties | src/app/user/page.tsx:71-75 | with unique ids an edit changes exactly the one row, and repeating it changes nothing |
| Users.DeleteUser | src/app/user/page.tsx:52-56 | exactly the users with a different id remain, in order, each as many times as it occurred |
| Users.DeleteKeepsIdsUnique | src/app/user/page.tsx:52-56 | deleting keeps ids unique |
| Users.UsersPage.constructor | src/app/user/page.tsx:6-14 | the initial state: the loaded users, empty search and form, unsorted with order ascending, page 1, nobody being edited |
| Users.UsersPage.SortedRows | src/app/user/page.tsx:29-35 | every sorted row is a user of the list whose name matches |
| Users.UsersPage.PaginatedUsers | src/app/user/page.tsx:37-41 | at most ten rows, rows `(p-1)*10` onward of the sorted users, each a matching user |
| Users.UsersPage.TotalPages | src/app/user/page.tsx:43-45 | the fewest pages of ten holding the sorted users, zero exactly when none match |
| Users.UsersPage.RowNumber | src/app/user/page.tsx:151 | the "No" column is the row's 1-based position in the whole sorted list |
| Users.UsersPage.RowNumbersConsecutive | src/app/user/page.tsx:151 | `(currentPage - 1) * itemsPerPage + index + 1`: the first row of a page is numbered `(p-1)*10 + 1` and each further row one more than the row above |
| Users.UsersPage.SetSearchTerm | src/app/user/page.tsx:98-101 | typing sets the term and returns to page 1 |
| Users.UsersPage.HandleSort | src/app/user/page.tsx:47-50 | the sort column and order become the toggled ones |
| Users.UsersPage.HandleDelete | src/app/user/page.tsx:52-56 | a confirmed delete removes the users with the id; a cancelled one changes nothing |
| Users.UsersPage.HandleEdit | src/app/user/page.tsx:58-62 | the user becomes the one being edited and the form shows its name and e-mail |
| Users.UsersPage.SetFormData | src/app/user/page.tsx:236-254 | an input change sets the form |
| Users.UsersPage.HandleSubmit | src/app/user/page.tsx:64-84 | an incomplete form changes nothing; a complete one edits or adds, then clears the form and the edited user |
| Users.UsersPage.Previous | src/app/user/page.tsx:189-195 | one page back, and nothing on page 1 where the button is disabled |
| Users.UsersPage.Next | src/app/user/page.tsx:207-213 | one page on unless on the last page; from a page within range it stays within range |
| Users.UsersPage.GoToPage | src/app/user/page.tsx:196-206 | button `i + 1` shows page `i + 1`, which lies within range and is not empty |

## Left out

- Loading the JSON fixtures with `fetch` is asynchronous I/O. Each class's constructor takes the loaded list as a parameter instead.
- `alert` and `confirm`:
  - an alert has no effect on state, so it is left out;
  - the answer to `confirm` is a `confirmed` parameter of the delete handlers.
- The modal open/close flags (`isAddModalOpen`, `isEditModalOpen`, `isModalOpen`) only decide what is displayed, so they are left out. So are the buttons that only toggle them.
  - On the user page, Cancel closes the modal but leaves `editingUser` set. The model keeps that value too, until a submit clears it.
- `handleApprove` and `handleReject` on the room page only raise an alert.
- `parseInt` in the room form's number inputs can produce `NaN`. Capacities and prices are modelled as integers.
- `localeCompare` on the user page is modelled as plain character-by-character order, and so is `<` on strings. Locale collation rules and UTF-16 code-unit order are not modelled.
- `Strings.Lower`: `toLowerCase` is modelled for ASCII letters only. The model does not capture Unicode case mapping.
- Room capacities, prices and all ids are unbounded integers. `String` of a JavaScript float is not modelled.
- A room whose JSON carries fields beyond the declared ones would have those values searched too, because the room search reads `Object.values`. Rooms are modelled with exactly the declared fields. (The booking search reads only the name, room and status, so extra booking fields play no part.)
- The user page's "No" header calls `handleSort("id")`. Sorting by id then calls `localeCompare` on a number, which throws once two rows are compared. The user sort columns are name and e-mail only, so this click is not modelled.
- `Math.max(...ids)` on very long lists can exceed the engine's argument limit. This is not modelled.
- React's rendering, memoisation and batching of state updates are not modelled. Each handler is applied to the state as one step.
