# Artwork table: pagination and selection state

A Dafny model of the one piece of application logic in a React front end that
shows artwork records in a paginated data grid. The page component `Content`
keeps its current page in the URL (`/page/:pageNumber`), its page size, an
open/closed flag and the text of an inline editor, and the list of checked rows.
Its event handlers move between pages, accept a typed page number or page size,
and add rows to or remove rows from the selection.

The model has four modules:

- `Wrappers`: `Option`. A JavaScript number that may be NaN is an `Option<int>`,
  with `None` standing for NaN.
- `JsNumbers`: the JavaScript behaviour the handlers depend on.
  - `ParseInt` is `parseInt(s, 10)`. It skips leading white space, takes one
    optional sign and then the longest run of decimal digits. No digits at all
    gives NaN.
  - `ToNumber` is `Number(s)` restricted to decimal-integer text.
  - `NumberToString` is the text that `` `/page/${n}` `` produces for an integer.
  - The round-trip lemmas show that parsing that printed text gives back the
    original number.
- `Selection`: `indexOf` as a loop method. `RemoveFirst` specifies
  `splice(indexOf(x), 1)`, and `Toggled` specifies one checkbox event. Lemmas
  cover appending, removing the first occurrence, and check-then-uncheck round
  trips.
- `Content`: the component's state as one record (`View`), which includes the
  route parameter. Each handler is a function from the old state to the new one.
  `navigate` replaces the route parameter, and the current page is parsed again
  from it. `HandleRowSelect` is a method that copies the selection, then pushes
  or splices as the source does. `Step` and `Run` replay a sequence of events.

Where the program's own comments and its code disagree, the model follows the
code, and some behaviour is worth stating plainly.

- The comment at `Content.tsx:28` says the page defaults to 1 when the parameter
  is not valid, but the code at `Content.tsx:29` falls back to "1" only when the
  parameter is missing or empty. So `/page/0` gives page 0, `/page/-2` gives
  page -2 and `/page/abc` gives NaN (`CurrentPageIsNotClamped`).
- A check appends the row with no test for whether it is already selected
  (`Selection.CheckThenUncheckReorders`).
- `handleRowSelect` and `handleRowsChange` exist, but no element is bound to
  them. The checkbox column passes the grid's whole new selection to the state
  (`Content.tsx:99`). The editor's Submit button calls `handlePageChange`
  (`Content.tsx:122`). The model keeps all handlers, and `Step` also includes
  those inline setters as events.

## Model

| member | source | states |
|---|---|---|
| JsNumbers.Decimal | Content.tsx:49 | the decimal text of a natural number is non-empty, all digits, reads back as that number, and starts with 0 only when it is exactly "0" |
| JsNumbers.SkipSpace | Content.tsx:68 | parseInt's first step stops at the first character at or after the start that is not white space, and everything it skipped was white space |
| JsNumbers.SkipDigits | Content.tsx:68 | the digit run parseInt reads ends at the first non-digit, and every character before that is a digit |
| JsNumbers.DropTrailingSpace | Content.tsx:60 | Number() trims trailing white space and stops after the last non-space character |
| JsNumbers.ParseIntWithoutDigits | Content.tsx:68 | parseInt of text containing no digit is NaN |
| JsNumbers.ParseIntOfLeadingDigits | Content.tsx:68 | parseInt of white space + optional sign + digits + anything not starting with a digit is exactly the signed value of those digits |
| JsNumbers.ParseIntRoundTrip | Content.tsx:29 | parsing the URL text written for a page number (integer or NaN) gives back that page number |
| JsNumbers.ToNumberAgreesWithParseInt | Content.tsx:60-61 | on decimal-integer text, whenever Number() reads non-blank text as an integer, parseInt gives the same value |
| JsNumbers.ToNumberRoundTrip | Content.tsx:60-61 | Number() reads back the decimal text of every integer |
| JsNumbers.ToNumberWithoutDigits | Content.tsx:60 | on decimal-integer text, Number() of text without a digit is NaN, or 0 when the text is blank |
| JsNumbers.TrailingTextParsers | Content.tsx:60-68 | "12px" is 12 to parseInt but NaN to Number() |
| JsNumbers.BlankTextParsers | Content.tsx:60-68 | blank text is NaN to parseInt but 0 to Number() |
| JsNumbers.SignedTextParsers | Content.tsx:60-68 | both parsers read " -5 " as -5 |
| Selection.IndexOf | Content.tsx:80 | indexOf gives -1 exactly when the row is absent, and otherwise the position of its first occurrence |
| Selection.RemoveFirstAt | Content.tsx:80-83 | removing the first occurrence means splicing out the element at the index indexOf returns |
| Selection.RemoveFirstAbsent | Content.tsx:81 | unchecking a row that is not selected leaves the selection unchanged |
| Selection.RemoveFirstMultiset | Content.tsx:79-84 | unchecking removes exactly one copy of the row, if there is one |
| Selection.CheckAppends | Content.tsx:77-78 | a check makes the selection one longer, keeps every earlier row in place and puts the row last, with no de-duplication |
| Selection.UncheckRemovesOne | Content.tsx:79-84 | unchecking a selected row removes its first occurrence, shortens the selection by one and keeps the other rows in order |
| Selection.CheckThenUncheck | Content.tsx:75-86 | checking a row that was not selected and then unchecking it restores the selection exactly |
| Selection.CheckThenUncheckMultiset | Content.tsx:75-86 | checking then unchecking any row restores how many times each row is selected |
| Selection.CheckThenUncheckReorders | Content.tsx:75-86 | checking an already selected row and then unchecking it changes the order: [a, b] becomes [b, a] |
| Content.Initial | Content.tsx:22-26 | first render: 20 rows per page, editor closed, empty editor text and empty selection |
| Content.CurrentPage | Content.tsx:29 | a missing or empty route parameter falls back to the text "1" and so gives page 1 |
| Content.CurrentPageOfDigits | Content.tsx:29 | a route parameter made of decimal digits gives the page with that value |
| Content.CurrentPageIsNotClamped | Content.tsx:28-29 | an empty parameter gives page 1, but "0", "-2" and "abc" give 0, -2 and NaN: the page is not forced to be at least 1 |
| Content.Navigate | Content.tsx:49 | after navigate('/page/' + target), the current page is the target, NaN included, and nothing else in the state changes |
| Content.HandleNextPage | Content.tsx:47-50 | Next moves to the current page + 1 with no upper bound (NaN stays NaN) and changes nothing else |
| Content.HandlePreviousPage | Content.tsx:52-57 | Previous moves to page - 1 exactly when the page is above 1 and is otherwise a no-op, so it never moves the page below 1 |
| Content.PreviousOnFirstPage | Content.tsx:53 | on page 1, Previous leaves the state unchanged |
| Content.NextThenPrevious | Content.tsx:47-57 | from any page from 1 up, Next then Previous returns to the same page |
| Content.HandleRowsChange | Content.tsx:59-64 | the page size becomes Number(text) and the editor closes exactly when that number is positive; otherwise nothing changes, so a size can change only to a positive value |
| Content.RowsChangeIgnoresTextWithoutDigits | Content.tsx:60 | on decimal-integer text, editor text with no digit ("", "abc") changes neither the page size nor the editor |
| Content.RowsChangeIgnoresNonPositive | Content.tsx:60 | the text of any zero or negative number, such as "0" or "-5", changes neither the page size nor the editor |
| Content.RowsChangeToDecimal | Content.tsx:60-62 | the decimal text of a positive number, such as "30", becomes the page size and closes the editor |
| Content.HandlePageChange | Content.tsx:67-72 | the view moves to parseInt(text) exactly when that is a number above 0, and is otherwise unchanged |
| Content.PageChangeIgnoresTextWithoutDigits | Content.tsx:68-69 | editor text with no digit ("", "abc") never moves the page |
| Content.PageChangeIgnoresNonPositive | Content.tsx:68-69 | the text of any zero or negative number, such as "0" or "-5", never moves the page |
| Content.PageChangeToDecimal | Content.tsx:67-72 | the decimal text of a positive page number moves the view to that page |
| Content.HandleRowSelect | Content.tsx:75-86 | copy, then push or indexOf + splice, then store: the new selection is the old one with the row appended (check) or with its first occurrence removed (uncheck) |
| Content.RunKeepsRowsPerPagePositive | Content.tsx:23 | starting from a positive page size, any sequence of events keeps it positive |
| Content.RunKeepsSelection | Content.tsx:26 | events other than selection events leave the selection unchanged, so selected rows survive page changes |
| Content.SelectionKeepsFetchKey | Content.tsx:42-44 | selection events change neither the current page nor the page size, the two values a refetch depends on |

## Left out

- Fetching (`Content.tsx:32-44`): the network request, its last-response-wins
  races and the error log. It is I/O and concurrency. The model only notes that
  a fetch depends on (current page, page size).
- Rendering: the JSX tree, the grid widget with its own paginator, icons and
  styling. These are UI and third-party library code. The grid's wholesale
  selection replacement and the editor's two inline setters appear only as
  `Step` events.
- `main.tsx` (mounting and CSS) and `App.tsx` (a route table with `/` and
  `/page/:pageNumber`). The router's path matching is not visible; the model
  takes the route parameter as given.
- JsNumbers.ToNumber: treats as NaN any text that JavaScript's `Number` reads as
  a fraction ("2.5"), an exponent form ("1e2"), a hexadecimal, octal or binary
  literal, or Infinity. Only decimal-integer text is modelled exactly.
- JsNumbers.ParseInt: integers are unbounded. Digit strings above 2^53 lose
  precision in JavaScript and are not modelled. Negative zero is folded into 0.
- JsNumbers.NumberToString: integers of 10^21 or more, which JavaScript prints
  in exponent form, are printed here in plain decimal.
- Content.HandleRowsChange: the page size is an integer. Text that JavaScript's
  `Number` reads as a positive non-integer or non-decimal value is committed by
  the program but rejected by the model: a fraction ("2.5"), an exponent form
  ("1e2", 100), a hexadecimal literal ("0x1E", 30) or "Infinity".
- ToNumberAgreesWithParseInt: holds only on the decimal-integer text `ToNumber`
  models. In JavaScript `Number("1e2")` is 100 where `parseInt("1e2", 10)` is 1,
  and `Number("0x1E")` is 30 where `parseInt` gives 0.
- ToNumberWithoutDigits: holds only on the decimal-integer text `ToNumber`
  models. JavaScript's `Number` reads the digit-free "Infinity" (and "-Infinity")
  as an infinite value, not NaN or 0.
- RowsChangeIgnoresTextWithoutDigits: holds only on the decimal-integer text
  `ToNumber` models. For "Infinity" the program's test at `Content.tsx:60`
  passes, so it commits Infinity as the page size and closes the editor.
- Artwork records: a row is modelled only by its identity, an abstract address. The artwork fields
  (title, place of origin, artist, inscriptions, start and end date) are never
  read by the handlers.
