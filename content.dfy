/** The page component's state and its event handlers.

    React state is replaced, never updated in place, so the component is one value
    (`View`) and each handler is a function from the state before the event to the
    state after it. The route parameter `:pageNumber` is part of that value: a call
    to `navigate('/page/<n>')` replaces it, and the current page is recomputed from
    it on the next render.

    Only three handlers are reachable from the rendered tree: Previous and Next, and
    the editor's Submit button, which calls `HandlePageChange`. `HandleRowsChange`
    and `HandleRowSelect` are defined by the component but bound to no element; the
    checkbox column instead hands the grid's whole new selection to the state
    (the `GridSelection` event below).

    The data fetch is keyed by the pair (current page, rows per page): it runs again
    whenever either changes and is not part of this model. */
module Content {

  import opened Wrappers
  import opened JsNumbers
  import Selection

  /** The identity of a fetched artwork object. Rows are compared by reference only,
      so two rows are the same exactly when they are the same object. */
  datatype RowRef = RowRef(address: nat)

  datatype View = View(
    pageSegment: Option<string>,  // the `:pageNumber` route parameter; None on route "/"
    rowsPerPage: int,
    showInput: bool,              // whether the page-number editor is open
    inputRows: string,            // the editor's text
    selectedRows: seq<RowRef>)

  /** The state on first render, for the given route parameter. */
  function Initial(pageSegment: Option<string>): (st: View)
    ensures st.pageSegment == pageSegment && st.rowsPerPage == 20
    ensures !st.showInput && st.inputRows == "" && st.selectedRows == []
  {
    View(pageSegment, 20, false, "", [])
  }

  /** `pageNumber || '1'`: a missing or empty parameter falls back to "1". */
  function PageText(pageSegment: Option<string>): string
  {
    if pageSegment.None? || pageSegment.value == "" then "1" else pageSegment.value
  }

  /** The current page: the route parameter read by `parseInt(…, 10)`. Only a missing
      or empty parameter falls back to page 1; other text is not validated, so the
      page can be 0, negative or NaN. */
  function CurrentPage(st: View): (page: Option<int>)
    ensures PageText(st.pageSegment) == "1" ==> page == Some(1)
    ensures st.pageSegment.None? ==> page == Some(1)
  {
    ParseIntRoundTrip(Some(1));
    ParseInt(PageText(st.pageSegment))
  }

  /** `navigate('/page/' + target)`: the route parameter becomes the text of the
      target, so the next render's current page is the target itself, NaN included. */
  function Navigate(st: View, target: Option<int>): (r: View)
    ensures CurrentPage(r) == target
    ensures r.pageSegment.Some? && r == st.(pageSegment := r.pageSegment)
  {
    ParseIntRoundTrip(target);
    st.(pageSegment := Some(NumberToString(target)))
  }

  /** JavaScript truthiness of a number: NaN and 0 are false. */
  predicate Truthy(n: Option<int>)
  {
    n.Some? && n.value != 0
  }

  /** Next: go to the current page plus one, with no upper bound. NaN stays NaN. */
  function HandleNextPage(st: View): (r: View)
    ensures CurrentPage(r) == if CurrentPage(st).Some? then Some(CurrentPage(st).value + 1) else None
    ensures r == st.(pageSegment := r.pageSegment)
  {
    var page := CurrentPage(st);
    Navigate(st, if page.Some? then Some(page.value + 1) else None)
  }

  /** Previous: go to the current page minus one, but only from a page above 1. */
  function HandlePreviousPage(st: View): (r: View)
    ensures var page := CurrentPage(st);
      if page.Some? && page.value > 1
      then CurrentPage(r) == Some(page.value - 1) && r == st.(pageSegment := r.pageSegment)
      else r == st
    ensures CurrentPage(r) != CurrentPage(st) ==> CurrentPage(r).Some? && CurrentPage(r).value >= 1
  {
    var page := CurrentPage(st);
    if page.Some? && page.value > 1 then Navigate(st, Some(page.value - 1)) else st
  }

  /** Rows-per-page submit: `Number(inputRows)` is committed, and the editor closed,
      only when the text is non-empty and reads as a positive number. */
  function HandleRowsChange(st: View): (r: View)
    ensures var n := ToNumber(st.inputRows);
      if n.Some? && n.value > 0
      then r == st.(rowsPerPage := n.value, showInput := false)
      else r == st
    ensures r.rowsPerPage != st.rowsPerPage ==> r.rowsPerPage > 0
  {
    var n := ToNumber(st.inputRows);
    if st.inputRows != "" && n.Some? && n.value > 0
    then st.(rowsPerPage := n.value, showInput := false)
    else st
  }

  /** Page-number submit: `parseInt(inputRows, 10)` is navigated to when it is a
      truthy number above 0; otherwise nothing happens. */
  function HandlePageChange(st: View): (r: View)
    ensures var page := ParseInt(st.inputRows);
      if page.Some? && page.value > 0
      then CurrentPage(r) == page && r == st.(pageSegment := r.pageSegment)
      else r == st
  {
    var page := ParseInt(st.inputRows);
    if Truthy(page) && page.value > 0 then Navigate(st, page) else st
  }

  /** Row checkbox: copy the selection, `push` the row on a check or `splice` out its
      first `indexOf` match on an uncheck, then store the copy. */
  method HandleRowSelect(st: View, row: RowRef, checked: bool) returns (r: View)
    ensures r == st.(selectedRows := Selection.Toggled(st.selectedRows, row, checked))
  {
    var selected := st.selectedRows;
    if checked {
      selected := selected + [row];
    } else {
      var index := Selection.IndexOf(selected, row);
      if index != -1 {
        Selection.RemoveFirstAt(selected, row, index);
        selected := selected[..index] + selected[index + 1..];
      } else {
        Selection.RemoveFirstAbsent(selected, row);
      }
    }
    r := st.(selectedRows := selected);
  }

  // ---------------------------------------------------------------------------
  // The current page

  /** A route parameter made of decimal digits gives the page with that value. */
  lemma CurrentPageOfDigits(st: View, d: string)
    requires st.pageSegment == Some(d) && d != [] && AllDigits(d)
    ensures CurrentPage(st) == Some(DecimalValue(d))
  {
    ParseIntOfLeadingDigits("", "", d, "");
    assert "" + "" + d + "" == d;
  }

  /** The route parameter is not validated: it can give page 0, a negative page or
      NaN, and only a missing or empty parameter falls back to page 1. */
  lemma CurrentPageIsNotClamped(st: View)
    ensures st.pageSegment == Some("") ==> CurrentPage(st) == Some(1)
    ensures st.pageSegment == Some("0") ==> CurrentPage(st) == Some(0)
    ensures st.pageSegment == Some("-2") ==> CurrentPage(st) == Some(-2)
    ensures st.pageSegment == Some("abc") ==> CurrentPage(st) == None
  {
    ParseIntRoundTrip(Some(1));
    ParseIntRoundTrip(Some(0));
    ParseIntRoundTrip(Some(-2));
    assert NumberToString(Some(-2)) == "-2";
    ParseIntWithoutDigits("abc");
  }

  // ---------------------------------------------------------------------------
  // Previous and Next

  /** On the first page, Previous does nothing. */
  lemma PreviousOnFirstPage(st: View)
    requires CurrentPage(st) == Some(1)
    ensures HandlePreviousPage(st) == st
  {
  }

  /** From any page from 1 up, Next then Previous comes back to the same page and
      touches nothing else. */
  lemma NextThenPrevious(st: View)
    requires CurrentPage(st).Some? && CurrentPage(st).value >= 1
    ensures var r := HandlePreviousPage(HandleNextPage(st));
      CurrentPage(r) == CurrentPage(st) && r == st.(pageSegment := r.pageSegment)
  {
  }

  // ---------------------------------------------------------------------------
  // The two submits

  /** Editor text without any digit ("", "abc", "-") never moves the page. */
  lemma PageChangeIgnoresTextWithoutDigits(st: View)
    requires forall i :: 0 <= i < |st.inputRows| ==> !IsDigit(st.inputRows[i])
    ensures HandlePageChange(st) == st
  {
    ParseIntWithoutDigits(st.inputRows);
  }

  /** The text of a zero or negative page number ("0", "-5") never moves the page
      either. */
  lemma PageChangeIgnoresNonPositive(st: View, v: int)
    requires v <= 0 && st.inputRows == NumberToString(Some(v))
    ensures HandlePageChange(st) == st
  {
    ParseIntRoundTrip(Some(v));
  }

  /** The decimal text of a positive page number takes the view to that page. */
  lemma PageChangeToDecimal(st: View, n: nat)
    requires n > 0 && st.inputRows == Decimal(n)
    ensures CurrentPage(HandlePageChange(st)) == Some(n)
  {
    ParseIntRoundTrip(Some(n));
  }

  /** Editor text without any digit never changes the rows per page or closes the
      editor, on the decimal-integer text `ToNumber` models ("Infinity" is the
      exception in JavaScript). */
  lemma RowsChangeIgnoresTextWithoutDigits(st: View)
    requires forall i :: 0 <= i < |st.inputRows| ==> !IsDigit(st.inputRows[i])
    ensures HandleRowsChange(st) == st
  {
    ToNumberWithoutDigits(st.inputRows);
  }

  /** The text of a zero or negative number ("0", "-5") is rejected as well. */
  lemma RowsChangeIgnoresNonPositive(st: View, v: int)
    requires v <= 0 && st.inputRows == NumberToString(Some(v))
    ensures HandleRowsChange(st) == st
  {
    ToNumberRoundTrip(v);
  }

  /** The decimal text of a positive number ("30") becomes the rows per page and
      closes the editor. */
  lemma RowsChangeToDecimal(st: View, n: nat)
    requires n > 0 && st.inputRows == Decimal(n)
    ensures HandleRowsChange(st) == st.(rowsPerPage := n, showInput := false)
  {
    ToNumberRoundTrip(n);
  }

  // ---------------------------------------------------------------------------
  // Sequences of events

  /** Everything that changes the component's state. The first three are bound to
      buttons; `RowsSubmitted` and `RowChecked` stand for the two handlers no element
      calls; the last three are the inline setters of the rendered tree: the
      chevron that opens and closes the editor, typing into the editor, and the
      grid replacing the whole selection. */
  datatype Event =
    | NextClicked
    | PreviousClicked
    | PageSubmitted
    | RowsSubmitted
    | RowChecked(row: RowRef, checked: bool)
    | EditorToggled
    | InputTyped(text: string)
    | GridSelection(rows: seq<RowRef>)

  predicate IsSelectionEvent(ev: Event)
  {
    ev.RowChecked? || ev.GridSelection?
  }

  function Step(st: View, ev: Event): View
  {
    match ev
    case NextClicked => HandleNextPage(st)
    case PreviousClicked => HandlePreviousPage(st)
    case PageSubmitted => HandlePageChange(st)
    case RowsSubmitted => HandleRowsChange(st)
    case RowChecked(row, checked) => st.(selectedRows := Selection.Toggled(st.selectedRows, row, checked))
    case EditorToggled => st.(showInput := !st.showInput)
    case InputTyped(text) => st.(inputRows := text)
    case GridSelection(rows) => st.(selectedRows := rows)
  }

  /** The state after handling `evs` in order. */
  function Run(st: View, evs: seq<Event>): View
    decreases |evs|
  {
    if evs == [] then st else Run(Step(st, evs[0]), evs[1..])
  }

  /** A positive page size stays positive whatever the user does: the only event
      that changes it commits a positive value. */
  lemma {:induction false} RunKeepsRowsPerPagePositive(st: View, evs: seq<Event>)
    requires st.rowsPerPage > 0
    ensures Run(st, evs).rowsPerPage > 0
    decreases |evs|
  {
    if evs != [] {
      RunKeepsRowsPerPagePositive(Step(st, evs[0]), evs[1..]);
    }
  }

  /** Paging does not touch the selection: only selection events change it, so rows
      stay selected across any number of page changes. */
  lemma {:induction false} RunKeepsSelection(st: View, evs: seq<Event>)
    requires forall i :: 0 <= i < |evs| ==> !IsSelectionEvent(evs[i])
    ensures Run(st, evs).selectedRows == st.selectedRows
    decreases |evs|
  {
    if evs != [] {
      assert !IsSelectionEvent(evs[0]);
      RunKeepsSelection(Step(st, evs[0]), evs[1..]);
    }
  }

  /** Selecting rows never changes the current page or the page size, so it never
      causes a new fetch. */
  lemma SelectionKeepsFetchKey(st: View, ev: Event)
    requires IsSelectionEvent(ev)
    ensures CurrentPage(Step(st, ev)) == CurrentPage(st)
    ensures Step(st, ev).rowsPerPage == st.rowsPerPage
  {
  }
}
