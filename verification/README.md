# cmdpad search-and-select core, in Dafny

A model of the logic inside the cmdpad launcher (`cmdpad/cmdpad.py`): a small window that
fuzzy-searches a local table of command snippets, shows the best two matches as cards, lets
the user move the selection with the arrow keys, and adds, edits and deletes snippets.

What is modelled, one module per concern:

- `Text` (text.dfy): Python's `str.strip()` with no arguments, over the exact set of
  characters `str.isspace()` accepts. Every search query and every dialog field goes through it.
- `Store` (store.dfy): the `commands` table as a sequence of `Command(id, tags, desc, cmd)`
  rows in storage order, plus the AUTOINCREMENT counter (`lastId`, SQLite's
  `sqlite_sequence`). `Insert`, `Update`, `Delete` are `insert_command`, `update_command` and
  `delete_command`; rows are updated in place and deleted as well as appended
  (cmdpad/cmdpad.py:74-87). `Empty` is the table `init_db` creates. `Find` is the `next(r for r in fetch_commands() if r[0] == cid)` lookup of
  `edit_card`. `Valid` is the id invariant: ids are positive, at most the counter, and
  strictly ascending in storage order.
- `Fuzzy` (fuzzy.dfy): `fuzzy_score`. rapidfuzz's `partial_ratio` and `str.lower` are fields
  of a `Matcher` value and stay abstract. `RatioInRange` is the assumption that
  `partial_ratio` stays in 0..100.
- `Ranking` (ranking.dfy): the ranking part of `on_search`. `Hits` is the scoring loop with
  `FUZZY_THRESHOLD = 60`. `SortByScore` is `list.sort(key=score, reverse=True)`, which is
  stable. `Rank` keeps the first `MAX_RESULTS = 2`.
- `Window` (window.dfy): the result area. It covers the cards, `selected_index`, each card's
  `selected` property (`marks`), `adjust_height`, `clear_results` / `update_selection` /
  `on_search` (`OnSearch`), and `keyPressEvent` (`KeyPress`). `KeyPress` returns the effect
  a key asks for: hide, copy and hide, edit, delete or add.
- `Dialog` (dialog.dfy): `CommandDialog.values`, which strips every field.
- `App` (app.dfy): the whole launcher state (table, search text, window, visibility), with
  `add_cmd`, `edit_card` and `delete_card` (already confirmed), and the key handler wired
  to them (`HandleKey`).
- `Session` (invariant.dfy): the invariant kept between events. The window always shows
  what a fresh search of the current table gives for the current text. The selection is
  coherent. The table's ids are sound.

Storage order is an assumption. `fetch_commands` runs `SELECT` without `ORDER BY`. SQLite's
query planner happens to scan a plain rowid table in ascending id order, but SQLite does not
guarantee this: `PRAGMA reverse_unordered_selects` reverses it. The model takes the ascending
scan as given. Ids only ever grow, so this order is insertion order. Under `Valid`, ties in
score are therefore shown in ascending id order (`RankOrdered`, `RankTieBreak`). Both results
rest on this assumption.

Scores are `real`. rapidfuzz's `partial_ratio` returns a float (66.67, say). The threshold
comparison and the sort key work on those floats. The model uses exact reals and ignores
floating-point rounding.

## Model

| member | source | states |
|---|---|---|
| Text.Strip | cmdpad/cmdpad.py:365 | the result has no white space at either end, and it is an infix of the input with only white space around it |
| Text.StripUnique | cmdpad/cmdpad.py:189-194 | any trimmed infix with only white space around it equals `Strip(s)`, so strip is fully pinned down by its contract |
| Text.StripEmptyIff | cmdpad/cmdpad.py:365-370 | a query strips to the empty string exactly when it is all white space |
| Text.StripIdempotent | cmdpad/cmdpad.py:189-194 | stripping twice gives the same result as stripping once |
| Store.Find | cmdpad/cmdpad.py:440 | the lookup finds a row exactly when some row has the id; the row it finds is in the table and has that id |
| Store.FindFirst | cmdpad/cmdpad.py:440 | `next` returns the first row with the id: no earlier row has it |
| Store.Insert | cmdpad/cmdpad.py:65-72 | one row is appended with the given fields; earlier rows are unchanged; on a valid table the new id was used by no row and validity is kept |
| Store.Update | cmdpad/cmdpad.py:74-81 | rows whose id matches take the new fields; every other row, the row count and the counter are unchanged |
| Store.Delete | cmdpad/cmdpad.py:83-87 | no row with the id remains; every other row survives; nothing new appears; the counter is kept |
| Store.DeleteRowsAscending | cmdpad/cmdpad.py:83-87 | deleting keeps the surviving rows in storage order |
| Store.FindAfterInsert | cmdpad/cmdpad.py:48 | after an insert, the new id finds the new row and every other id finds what it found before (ids are never reused) |
| Store.FindAfterUpdate | cmdpad/cmdpad.py:74-81 | after an update, the id finds the new fields if it existed and nothing otherwise; other ids are unaffected |
| Store.FindAfterDelete | cmdpad/cmdpad.py:83-87 | after a delete, the id finds nothing; other ids are unaffected |
| Store.UpdateDeleteKeepValid | cmdpad/cmdpad.py:48-51 | update and delete keep the id invariant |
| Fuzzy.FuzzyScore | cmdpad/cmdpad.py:93-99 | the score is at least each of the three field scores and equals one of them; with `partial_ratio` in 0..100 it lies in 0..100 |
| Ranking.HitsMembers | cmdpad/cmdpad.py:372-376 | a hit is produced exactly for a stored row scoring at least 60, and it carries that row's score (both directions) |
| Ranking.HitsAscending | cmdpad/cmdpad.py:373-376 | the scoring loop keeps storage order |
| Ranking.SortByScore | cmdpad/cmdpad.py:378 | the sort result is a permutation of its input, with scores non-increasing |
| Ranking.SortByScoreStable | cmdpad/cmdpad.py:378 | for each score, the entries with that score keep their input order (stability) |
| Ranking.StableOrderUnique | cmdpad/cmdpad.py:378 | two non-increasing orderings that agree on every equal-score subsequence are equal |
| Ranking.SortByScoreIsStableSort | cmdpad/cmdpad.py:378 | any stable descending ordering of the hits equals `SortByScore` |
| Ranking.Rank | cmdpad/cmdpad.py:364-380 | a blank query gives no result; otherwise at most 2 entries, each a stored row with its own score of at least 60, in non-increasing score order |
| Ranking.RankComplete | cmdpad/cmdpad.py:372-380 | a qualifying row is shown unless two cards are already shown and the second scores at least as much |
| Ranking.RankOrdered | cmdpad/cmdpad.py:378-380 | on a valid table, cards are in descending score order, with equal scores in storage (id) order |
| Ranking.RankTieBreak | cmdpad/cmdpad.py:378-380 | on a valid table, a qualifying row that is not shown comes after the last card: it scores less, or the same with a larger id |
| Window.AdjustHeight | cmdpad/cmdpad.py:353-356 | the height always lies between 120 and 440 |
| Window.HeightMonotone | cmdpad/cmdpad.py:353-356 | more cards never give a smaller height |
| Window.HeightForResults | cmdpad/cmdpad.py:353-356 | for up to two cards the height is exactly 120 + 105 per card, below the 440 cap |
| Window.UpdateSelection | cmdpad/cmdpad.py:358-360 | exactly the card at `selected_index` is marked; cards and index are unchanged |
| Window.OnSearch | cmdpad/cmdpad.py:345-392 | the window is coherent; it shows the ranked rows; index 0 is selected when cards exist and -1 otherwise; at most 2 cards, each a stored row scoring at least 60 |
| Window.PyIndex | cmdpad/cmdpad.py:412 | Python list indexing: an index in `0..len-1` gives that element, a negative index `i` in `-len..-1` gives element `len+i`, and IndexError happens exactly outside `-len..len-1` |
| Window.KeyPress | cmdpad/cmdpad.py:396-427 | key handling keeps the window coherent and never changes the cards or the height; only Up and Down change the window, and with no cards the window stays as it was; Up and Down ask for nothing else; with no cards, Return, Ctrl+E, Delete and Backspace ask for nothing; Escape asks to hide, Ctrl+N asks for `add_cmd`, and other keys (E or N without Control included) ask for nothing |
| Window.ArrowsClamp | cmdpad/cmdpad.py:401-409 | Down moves one card on unless on the last card; Up moves one card back unless on the first |
| Window.PressArrows | cmdpad/cmdpad.py:401-409 | n presses of Down select `min(i+n, len-1)`; n presses of Up select `max(i-n, 0)` |
| Window.KeysActOnSelection | cmdpad/cmdpad.py:411-423 | with cards shown, Return copies the selected card's command; Ctrl+E, Delete and Backspace name the selected card's id |
| Window.RequestNamesSelected | cmdpad/cmdpad.py:416-423 | an edit or delete request always names the selected card |
| Dialog.Values | cmdpad/cmdpad.py:189-194 | each returned field is the stripped input; the command is empty exactly when the input command was all white space |
| Dialog.ValuesIdempotent | cmdpad/cmdpad.py:189-194 | `values()` applied to its own output returns it unchanged |
| App.Launch | cmdpad/cmdpad.py:276-304 | the window built by `__init__` and shown by `main` (line 480) is over the stored table, visible, with an empty search text, no cards and a coherent selection |
| App.Search | cmdpad/cmdpad.py:291 | a change of the search text replaces only the text and the window; the table and visibility stay; the new window is coherent and selects the first card, or -1 when there are no cards |
| App.Dispatch | cmdpad/cmdpad.py:396-457 | carrying out a key's request fails exactly when an edit names a missing row; the search text never changes; hide and copy hide the window and leave table and window alone; a delete leaves no row with the id |
| App.AddCmd | cmdpad/cmdpad.py:431-437 | a cancelled dialog, or one whose command is all white space, leaves everything unchanged; otherwise the search text and visibility stay and the redrawn window selects the first card (-1 without cards) |
| App.AddCmdInserts | cmdpad/cmdpad.py:431-437 | a saved non-blank command appends one row with the stripped fields and a fresh id; earlier rows are unchanged |
| App.EditCard | cmdpad/cmdpad.py:439-447 | StopIteration is raised exactly when no row has the id; a cancelled dialog changes nothing; text and visibility stay; after a save the redrawn window selects the first card (-1 without cards) |
| App.EditCardStored | cmdpad/cmdpad.py:439-447 | after a saved edit, the id finds the stripped new fields, with no emptiness check; other ids are unaffected |
| App.EditCardShown | cmdpad/cmdpad.py:446-447 | after a saved edit, every card with that id shows the new fields |
| App.DeleteCard | cmdpad/cmdpad.py:449-453 | after the delete, no row has the id; text and visibility stay; the redrawn window selects the first card (-1 without cards) |
| App.DeleteCardRemoves | cmdpad/cmdpad.py:449-453 | after the delete, the id finds nothing, other ids are unaffected, and no card shows the deleted command |
| App.HandleKey | cmdpad/cmdpad.py:397-399 | Escape hides the window |
| Session.LaunchInv | cmdpad/cmdpad.py:276-304 | the freshly built window (no cards, index -1, `adjust_height(0)`) satisfies the invariant |
| Session.FirstLaunchInv | cmdpad/cmdpad.py:44-55 | the first launch, over the empty table `init_db` creates, satisfies the invariant |
| Session.SearchKeepsInv | cmdpad/cmdpad.py:364-392 | after any search, the window shows exactly what ranking the table gives, with a coherent selection |
| Session.AddCmdKeepsInv | cmdpad/cmdpad.py:431-437 | adding keeps the invariant |
| Session.EditCardKeepsInv | cmdpad/cmdpad.py:439-447 | editing keeps the invariant |
| Session.DeleteCardKeepsInv | cmdpad/cmdpad.py:449-453 | deleting keeps the invariant |
| Session.RequestedCardExists | cmdpad/cmdpad.py:416-423 | under the invariant, a card named by Ctrl+E, Delete or Backspace is still in the table, so `edit_card`'s lookup cannot raise |
| Session.HandleKeyKeepsInv | cmdpad/cmdpad.py:396-427 | under the invariant, no key press raises and every key press keeps the invariant |

## Left out

- Qt widgets, styling and layout (`DARK_STYLE`, `ResultCard` rendering, `CommandDialog`
  layout, window flags): toolkit plumbing. A card is modelled as the row it shows.
- The clipboard (`QApplication.clipboard()`): a foreign side effect. Return yields a
  `CopyAndHide(text)` effect that names the text, and the launcher only records that it hid.
- The single-instance socket (`main`, `on_new_connection`, `on_socket_read`) and `toggle`:
  socket I/O. The launcher's `visible` flag changes only through Escape and copying.
- The tray icon (`setup_tray`): toolkit plumbing, Windows only.
- SQLite itself: the connection handling, `init_db`, the data directory, the nullable
  `description` column (the dialogs always supply a string), and rowid exhaustion at
  2^63-1. The table is an in-memory sequence.
- rapidfuzz's `partial_ratio` and Python's `str.lower`: abstract functions inside `Matcher`.
- The confirmation box in `delete_card`: deletion is modelled as already confirmed.
- The Copy, Edit and Delete buttons on a card (cmdpad/cmdpad.py:241-243). Copy calls
  `copy_command` (455-457), which makes the same two calls Return makes inline (412-413):
  set the clipboard, then hide. Edit and Delete call `edit_card` and `delete_card`. Each
  button acts on its own card, not on the selected one. The model reaches these actions only
  through `HandleKey`, or by calling `EditCard` and `DeleteCard` directly with any id.
- Keyboard focus: `KeyPress` and `HandleKey` model only the key events that reach
  `CmdPad.keyPressEvent`. While the search field has focus, Qt normally lets the field
  consume keys such as Backspace and Delete for editing the query. Those events never reach
  the handler, and the model says nothing about them.
- The edit dialog's round trip through `QTextEdit` (cmdpad/cmdpad.py:166, 172, 193):
  `setText` may read the stored command as HTML, and `toPlainText` turns U+00A0 into a space
  and U+2028/U+2029 into newlines. So saving an untouched edit may still change the command.
  The model takes the dialog's text as given (`Some(raw)`).
- Floating-point rounding in scores: scores are exact reals (see above).
- Exceptions other than `edit_card`'s StopIteration: storage and toolkit errors are not
  modelled. An IndexError in the key handler only aborts the handler (`PyIndex` returns
  `None`), and under the invariant it never occurs.
