# vstorage-viewer: a Dafny model of the column browser and the leaf cleanup

The viewer browses a remote, path-addressed key/value tree (the "vstorage"
tree) in six side-by-side columns. Column 0 lists the children of the root
path `published`. Selecting an entry in column L reads that entry's children.
If there are some, they fill column L+1. If there are none, or the read fails,
the entry is a leaf: its data is read, cleaned up, pretty-printed and shown in
the data pane. Left and Right move between columns.

The model has two parts.

- **Leaf cleanup** (`Replacer`, `Cleanup`, `Client`). Go's generic
  `strings.Replacer` is modelled as one left-to-right scan. At each position
  the first pair in argument order whose pattern starts there fires, and the
  scan jumps past the match. Otherwise one character is copied.
  `Cleanup.CleanJson` applies the nine-pair table of `cleanJSON` twice.
  `Client.FetchData` is what `fetchData` does once the body has arrived.
- **Navigation** (`Paths`, `Navigation`). `Navigation.Browser` is a class. Its
  fields are:
  - `columns`: an array of six entry lists; each entry holds its label and the
    path its select handler captured;
  - `captures`: which columns have had the Left/Right input capture installed;
  - `currentColumn`, the keyboard `focus`, and the data `pane`.

  Its methods are `InitializeColumn` (with its populating half `Populate`),
  the select handler `Select`, and the input capture `HandleKey`. The result
  of each remote read is a method parameter.

Strings are `seq<char>`. The source scans bytes, but every pattern is ASCII,
and an ASCII byte never occurs inside a multi-byte UTF-8 character. So a scan
by characters makes the same matches.

## Behaviour of the code

The model follows `main.go` wherever a plain description of the viewer
would suggest something else.

- Cleanup is not a chain of separate replace passes, one per pair. Each of its
  two passes is one scan with a priority rule. For this table the order of the
  pairs only matters for the repeated ones: `Cleanup.AtMostOnePatternStarts`
  shows that at most one distinct pattern starts at any position.
- A third cleanup pass is not a no-op. `Cleanup.CleanJsonNotIdempotent` takes
  `"\"{`: the two passes give `"{`, and a third gives `{`.
- Populating column L clears column L only (main.go:98), not the columns to
  its right. `Navigation.StaleColumnSurvives` shows a column 2 that still
  lists old children after column 1 is refilled.
- Right does not check that the target column holds anything
  (main.go:121-125). A column that was never populated has no input capture.
  Once it has the focus, neither arrow key moves the focus again
  (`Navigation.StuckOnUncapturedColumn`).
- A leaf whose cleaned text `json.Indent` rejects is an error, and the pane
  shows that error (main.go:173-174, 89-90); the raw cleaned text is never
  shown.
- After a leaf, `initializeColumn` focuses column `level - 1`, and the select
  handler then focuses column `L`. Since `level` is `L + 1`, both are the
  column the entry was selected in.

## Model

| member | source | states |
|---|---|---|
| Replacer.FirstMatch | main.go:181-191 | a pair it returns is a pair of the table, and its pattern starts the input |
| Replacer.FirstMatchSpec | main.go:181-191 | the winning pair is a pair of the table whose pattern starts the input, and no earlier pair's pattern does; nothing wins exactly when no pattern starts the input |
| Replacer.FirstMatchIs | main.go:181-191 | the first pair in argument order whose pattern starts the input is the winner |
| Replacer.Replace | main.go:181-192 | one scan of the replacer; with every replacement shorter than its pattern the output is no longer than the input |
| Replacer.ReplaceNeverLonger | main.go:181-192 | with every replacement shorter than its pattern, a scan never lengthens its input, and it shortens it strictly when any pattern occurs anywhere in it |
| Replacer.ReplaceUnchanged | main.go:181-192 | a scan over an input in which no pattern occurs returns the input |
| Replacer.ReplaceFixedPointIff | main.go:181-192 | with shortening pairs, a scan leaves its input unchanged if and only if no pattern occurs in it |
| Replacer.FirstMatchSkip | main.go:183-189 | dropping a pair that cannot match, or whose pattern an earlier pair already has, does not change the winner |
| Replacer.ReplaceIgnoresShadowed | main.go:183-189 | a pair whose pattern appears earlier in the table never fires: the scan gives the same output without it |
| Cleanup.CleanTableShortening | main.go:181-191 | every pattern of the nine pairs is non-empty and every replacement is strictly shorter than its pattern |
| Cleanup.PatternsAreSpecial | main.go:181-191 | every pattern has a backslash or a double quote within its first two characters |
| Cleanup.CleanJson | main.go:180-193 | the two-pass cleanup never lengthens the payload |
| Cleanup.CleanJsonUnchangedIff | main.go:180-193 | cleanup returns the payload unchanged if and only if none of the nine patterns occurs in it |
| Cleanup.CleanJsonPlainText | main.go:180-193 | a payload with no backslash and no double quote comes back unchanged |
| Cleanup.ReplaceIgnoresRepeatedPairs | main.go:183-189 | the repeated pairs on lines 188-189 are shadowed: a pass with all nine pairs equals a pass with the seven distinct ones |
| Cleanup.CleanJsonIgnoresRepeatedPairs | main.go:180-193 | two passes with all nine pairs equal two passes with the seven distinct ones, on every input |
| Cleanup.DedupTablePrefixFree | main.go:181-191 | no pattern of the seven distinct pairs is a prefix of another |
| Cleanup.AtMostOnePatternStarts | main.go:181-191 | at any position at most one distinct pattern starts, so argument order decides nothing beyond the repeats |
| Cleanup.PatternsOpen | main.go:181-191 | every pattern starts with one of the heads `\\`, `\"`, `"#`, `"{`, `}"`, `]"` |
| Cleanup.FireStep | main.go:181-191 | every pair but the two repeated ones fires on its own pattern, whatever follows, and the scan goes on right after it |
| Cleanup.CopyOrdinary | main.go:181-192 | a character other than a backslash, a double quote or a closing bracket is copied, whatever follows |
| Cleanup.CopyQuote | main.go:181-192 | a double quote is copied unless `#` or `{` follows it |
| Cleanup.CopyClosing | main.go:181-192 | a closing brace or bracket is copied unless a double quote follows it |
| Cleanup.CopyInert | main.go:181-192 | text with no backslash, double quote or closing bracket passes through one pass unchanged, whatever follows it |
| Cleanup.CleanJsonNotIdempotent | main.go:192 | for inert text `t`, cleaning `"\"{` and `t` gives `"{` and `t`, and cleaning that again gives `{` and `t`: a third pass is not a no-op |
| Cleanup.CleanJsonWrappedObject | main.go:180-193 | for a key and a value with no backslash, double quote or closing bracket (the key not starting with `#` or `{`), the object held in a string, `"#{\"key\":value}"`, becomes `{"key":value}` in the first pass and stays so in the second |
| Cleanup.CleanJsonEscapedWrappedObject | main.go:180-193 | for such a key and value, the object with its quotes escaped once more, `\"#{\"key\":value}\"`, becomes `"#{"key":value}"` in the first pass and `{"key":value}` in the second |
| Paths.ChildPath | main.go:100 | a child path is its parent path, then a dot, then the child's label, and it splits back into those parts |
| Paths.ChildPathBelowRoot | main.go:100 | a child of the root path, or of a path below it, starts with `published.` |
| Paths.ChildPathInjective | main.go:100 | under one parent, distinct labels give distinct child paths |
| Client.FetchData | main.go:167-177 | the leaf read succeeds exactly when the body arrived and its cleaned text pretty-prints, and then it returns the pretty-printed text; a read error is passed on, and an unprintable text is an indent error, never the raw text |
| Navigation.ItemsFor | main.go:98-110 | the entries added for a child list carry the labels in server order, and each entry's path is the parent path, a dot and its label |
| Navigation.LeafMessage | main.go:88-93 | after a leaf read the pane is never blank: it shows the text exactly when the read succeeded, and otherwise the read's error |
| Navigation.KeyStep | main.go:114-128 | Left moves down by at most one and Right up by at most one, inside [0, 5]; the index stays exactly when the key is another one or the move would leave the columns |
| Navigation.AfterKey | main.go:113-129 | one key press keeps the current column in [0, 5] |
| Navigation.AfterKeys | main.go:113-129 | any sequence of key presses keeps the current column in [0, 5] |
| Navigation.AfterKeysMovesAtMostOnePerKey | main.go:115-126 | each key press moves the current column by at most one |
| Navigation.StuckOnUncapturedColumn | main.go:112-129 | on a column whose input capture was never installed, no key sequence moves the current column |
| Navigation.RightThenLeftReturns | main.go:115-126 | Right then Left returns to the starting column when both columns have their capture and Right was not at the last column |
| Navigation.StaleColumnSurvives | main.go:98-109 | after drilling down `published.a.x`, going Left twice and selecting `b`, column 1 lists the children of `published.b` while column 2 still lists those of `published.a.x` |
| Navigation.FailedLeafKeepsFocus | main.go:86-107 | when both the children read and the leaf read of `published.b` fail, the pane shows the error, column 0 keeps the focus and its entries, and column 1 stays empty |
| Navigation.Browser.constructor | main.go:74-77 | startup fills column 0 with the root's children, leaves the other five columns empty and without capture, and focuses column 0 |
| Navigation.Browser.Populate | main.go:98-131 | column `level` is cleared and then lists exactly the given children in order, its capture is installed, and no other column changes |
| Navigation.Browser.InitializeColumn | main.go:84-132 | answers 1 exactly when the children read succeeded with a non-empty list, and then only column `level` changes, to those children; otherwise no column changes, the pane shows the leaf result or its error, focus moves to column `level - 1`, and it answers 0 |
| Navigation.Browser.Select | main.go:103-109 | in the last column nothing changes; elsewhere the current column and the focus become L after a leaf and L+1 after a populate, column L+1 then lists the children of the selected entry's path, and every other column is unchanged |
| Navigation.Browser.HandleKey | main.go:113-129 | Left and Right move the current column and the focus one step within [0, 5], only on a column whose capture is installed; no column and not the pane changes |

## Left out

- Widget construction, layout, colours, `app.Draw`, `app.Run` and `log.Fatalf` (main.go:43-82): terminal UI and process plumbing.
- `http.Get`, `ioutil.ReadAll`, `resp.Body.Close` and `json.Unmarshal` (main.go:134-166): network I/O and a foreign decoder. Their results reach the model as `Client.Outcome` parameters: the child list or an error for `fetchChildren`, and the body or an error for `fetchData`.
- `json.Indent` (main.go:172-175): a foreign library call. It is the function parameter `pretty`, which yields nothing for text that is not JSON. Only the branch on its outcome is modelled.
- The `[red]`/`[green]` message texts of `logMessage` (main.go:90-92, 195-198): display text. The pane holds the successful text or the error kind (`Navigation.Pane`).
- Client.FetchData: its errors carry only their kind (request, read, decode, indent), not the wrapped Go error text.
- The unused types `EncodedResponse` and `NestedResponse` (main.go:23-35).
- The list widget's own key handling: moving its cursor and activating the entry under it. `Select` takes the index of the activated entry directly.
- Navigation.Browser.constructor: requires a non-empty root listing. When the root read fails or lists nothing, the source indexes `columns[-1]` and panics (main.go:75, 94). `InitializeColumn` likewise requires `level >= 1` unless the children read gives a non-empty list.
- Blocking the event loop during a read, and any concurrency: the source is single-threaded, and each read is one synchronous parameter here.
