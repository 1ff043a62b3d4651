/** The launcher as a whole: the command table, the search field's text, the window, and
    the actions `add_cmd`, `edit_card`, `delete_card` and the key handler. */
module App {
  import opened Options
  import opened Text
  import opened Store
  import opened Fuzzy
  import opened Window
  import opened Dialog

  datatype App = App(table: Table, text: string, window: Window, visible: bool)

  /** The exception `edit_card` raises when no row carries the card's id. */
  datatype Error = StopIteration

  /** `main` after `w.show()`: the table as found, an empty search field, no cards. */
  function Launch(t: Table): (r: App)
    ensures r.table == t && r.text == "" && r.visible
    ensures r.window.cards == [] && Consistent(r.window)
  {
    App(t, "", Initial, true)
  }

  /** The search field's text changed: `on_search`. Only the text and the window change. */
  function Search(m: Matcher, a: App, text: string): (r: App)
    ensures r.table == a.table && r.text == text && r.visible == a.visible
    ensures Consistent(r.window)
    ensures r.window.selected == (if r.window.cards == [] then -1 else 0)
  {
    a.(text := text, window := OnSearch(m, a.table.rows, text))
  }

  /** `add_cmd`: `dialog` is what the user saved, `None` if they cancelled. A row is added,
      and the results redrawn, only when the trimmed command is not empty. */
  function AddCmd(m: Matcher, a: App, dialog: Option<Entry>): (r: App)
    ensures dialog.None? || AllSpace(dialog.value.cmd) ==> r == a
    ensures r.text == a.text && r.visible == a.visible
    ensures r == a || r.window.selected == (if r.window.cards == [] then -1 else 0)
  {
    match dialog
    case None => a
    case Some(raw) =>
      var v := Values(raw);
      if v.cmd != [] then
        var t := Insert(a.table, v.tags, v.desc, v.cmd);
        a.(table := t, window := OnSearch(m, t.rows, a.text))
      else a
  }

  /** A saved dialog with a non-blank command appends one row carrying the trimmed fields
      under an id no row had, and leaves the earlier rows as they were. */
  lemma {:induction false} AddCmdInserts(m: Matcher, a: App, raw: Entry)
    requires !AllSpace(raw.cmd)
    ensures var r := AddCmd(m, a, Some(raw));
            var v := Values(raw);
            && |r.table.rows| == |a.table.rows| + 1
            && r.table.rows[..|a.table.rows|] == a.table.rows
            && var c := r.table.rows[|a.table.rows|];
               && c.tags == v.tags && c.desc == v.desc && c.cmd == v.cmd && c.cmd != []
               && (Valid(a.table) ==> !HasId(a.table.rows, c.id))
  {
  }

  /** `edit_card`: look the card's row up (StopIteration if it is gone), then, if the
      user saved, overwrite its fields with the trimmed ones, empty or not, and redraw. */
  function EditCard(m: Matcher, a: App, cid: int, dialog: Option<Entry>): (r: Result<App, Error>)
    ensures r.Failure? <==> !HasId(a.table.rows, cid)
    ensures r.Success? && dialog.None? ==> r.value == a
    ensures r.Success? ==> r.value.text == a.text && r.value.visible == a.visible
    ensures r.Success? && dialog.Some? ==> r.value.window.selected == (if r.value.window.cards == [] then -1 else 0)
  {
    match Find(a.table.rows, cid)
    case None => Failure(StopIteration)
    case Some(_) =>
      match dialog
      case None => Success(a)
      case Some(raw) =>
        var v := Values(raw);
        var t := Update(a.table, cid, v.tags, v.desc, v.cmd);
        Success(a.(table := t, window := OnSearch(m, t.rows, a.text)))
  }

  /** A saved edit is `update_command` with the trimmed fields followed by a new search. */
  lemma {:induction false} EditCardSaved(m: Matcher, a: App, cid: int, raw: Entry)
    requires HasId(a.table.rows, cid)
    ensures var v := Values(raw);
            var t := Update(a.table, cid, v.tags, v.desc, v.cmd);
            EditCard(m, a, cid, Some(raw)).value == a.(table := t, window := OnSearch(m, t.rows, a.text))
  {
  }

  /** After a saved edit the id finds the trimmed new fields, and every other id finds
      what it found before. */
  lemma {:induction false} EditCardStored(m: Matcher, a: App, cid: int, raw: Entry, other: int)
    requires HasId(a.table.rows, cid)
    ensures var r := EditCard(m, a, cid, Some(raw)).value;
            var v := Values(raw);
            && Find(r.table.rows, cid) == Some(Command(cid, v.tags, v.desc, v.cmd))
            && (other != cid ==> Find(r.table.rows, other) == Find(a.table.rows, other))
  {
    var v := Values(raw);
    EditCardSaved(m, a, cid, raw);
    FindAfterUpdate(a.table, cid, v.tags, v.desc, v.cmd, other);
  }

  /** After a saved edit, a card showing that id shows the new fields. */
  lemma {:induction false} EditCardShown(m: Matcher, a: App, cid: int, raw: Entry, i: int)
    requires HasId(a.table.rows, cid)
    ensures var r := EditCard(m, a, cid, Some(raw)).value;
            var v := Values(raw);
            (0 <= i < |r.window.cards| && r.window.cards[i].id == cid) ==>
              r.window.cards[i] == Command(cid, v.tags, v.desc, v.cmd)
  {
    var v := Values(raw);
    var t := Update(a.table, cid, v.tags, v.desc, v.cmd);
    var w := OnSearch(m, t.rows, a.text);
    EditCardSaved(m, a, cid, raw);
    if 0 <= i < |w.cards| && w.cards[i].id == cid {
      assert w.cards[i] in t.rows;
    }
  }

  /** `delete_card`, confirmed: drop the row and redraw. */
  function DeleteCard(m: Matcher, a: App, cid: int): (r: App)
    ensures r.text == a.text && r.visible == a.visible
    ensures !HasId(r.table.rows, cid)
    ensures r.window.selected == (if r.window.cards == [] then -1 else 0)
  {
    var t := Delete(a.table, cid);
    a.(table := t, window := OnSearch(m, t.rows, a.text))
  }

  /** After a deletion the id finds nothing, every other id finds what it found before,
      and no card shows the deleted command. */
  lemma {:induction false} DeleteCardRemoves(m: Matcher, a: App, cid: int, other: int)
    ensures var r := DeleteCard(m, a, cid);
            && Find(r.table.rows, cid) == None
            && (other != cid ==> Find(r.table.rows, other) == Find(a.table.rows, other))
            && forall i :: 0 <= i < |r.window.cards| ==> r.window.cards[i].id != cid
  {
    var t := Delete(a.table, cid);
    FindAfterDelete(a.table, cid, other);
    var w := OnSearch(m, t.rows, a.text);
    forall i | 0 <= i < |w.cards| ensures w.cards[i].id != cid {
      assert w.cards[i] in t.rows;
    }
  }

  /** `keyPressEvent` wired to the actions; `dialog` is what the user saves in the dialog
      the key may open. Hiding is kept; the clipboard is not. */
  function HandleKey(m: Matcher, a: App, e: KeyEvent, dialog: Option<Entry>): (r: Result<App, Error>)
    ensures r.Success? && e.key == Escape ==> !r.value.visible
  {
    Dispatch(m, a, KeyPress(a.window, e), dialog)
  }

  /** Carry out what the key handler asked for. Only an edit of a missing row raises; a key
      never changes the search text; hiding and copying leave the table alone. */
  function Dispatch(m: Matcher, a: App, re: Reaction, dialog: Option<Entry>): (r: Result<App, Error>)
    ensures r.Failure? <==> re.effect.EditRequest? && !HasId(a.table.rows, re.effect.cid)
    ensures r.Success? ==> r.value.text == a.text
    ensures re.effect.Hide? || re.effect.CopyAndHide? ==>
              r.Success? && !r.value.visible && r.value.table == a.table && r.value.window == re.window
    ensures re.effect.DeleteRequest? ==> r.Success? && !HasId(r.value.table.rows, re.effect.cid)
  {
    match re.effect
    case NoEffect => Success(a.(window := re.window))
    case Hide => Success(a.(window := re.window, visible := false))
    case CopyAndHide(_) => Success(a.(window := re.window, visible := false))
    case EditRequest(cid) => EditCard(m, a, cid, dialog)
    case DeleteRequest(cid) => Success(DeleteCard(m, a, cid))
    case AddRequest => Success(AddCmd(m, a, dialog))
  }
}
