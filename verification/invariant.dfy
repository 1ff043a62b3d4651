/** The invariant the launcher keeps between events: the window always shows what a search
    over the current table gives for the current search text, and the table's ids are sound. */
module Session {
  import opened Options
  import opened Text
  import opened Store
  import opened Fuzzy
  import opened Ranking
  import opened Window
  import opened Dialog
  import opened App

  /** Every window shows what a search over the current table gives for the current text,
      and the table's ids are sound. */
  predicate Inv(m: Matcher, a: App) {
    && Valid(a.table)
    && Consistent(a.window)
    && a.window.cards == OnSearch(m, a.table.rows, a.text).cards
  }

  /** A fresh launch over a sound table satisfies the invariant. */
  lemma {:induction false} LaunchInv(m: Matcher, t: Table)
    requires Valid(t)
    ensures Inv(m, Launch(t))
  {
    StripEmptyIff("");
    assert Rank(m, "", t.rows) == [];
  }

  /** The first run, over the table `init_db` creates, satisfies the invariant. */
  lemma {:induction false} FirstLaunchInv(m: Matcher)
    ensures Inv(m, Launch(Empty))
  {
    LaunchInv(m, Empty);
  }

  /** Any search over a sound table leaves the window showing that search. */
  lemma {:induction false} SearchKeepsInv(m: Matcher, a: App, text: string)
    requires Valid(a.table)
    ensures Inv(m, Search(m, a, text))
  {
  }

  /** `add_cmd` keeps the invariant, whether it inserts a row or not. */
  lemma {:induction false} AddCmdKeepsInv(m: Matcher, a: App, dialog: Option<Entry>)
    requires Inv(m, a)
    ensures Inv(m, AddCmd(m, a, dialog))
  {
  }

  /** `delete_card` keeps the invariant. */
  lemma {:induction false} DeleteCardKeepsInv(m: Matcher, a: App, cid: int)
    requires Inv(m, a)
    ensures Inv(m, DeleteCard(m, a, cid))
  {
    UpdateDeleteKeepValid(a.table, cid, "", "", "");
  }

  /** `edit_card` on a stored row keeps the invariant, saved or cancelled. */
  lemma {:induction false} EditCardKeepsInv(m: Matcher, a: App, cid: int, dialog: Option<Entry>)
    requires Inv(m, a) && HasId(a.table.rows, cid)
    ensures Inv(m, EditCard(m, a, cid, dialog).value)
  {
    if dialog.Some? {
      var v := Values(dialog.value);
      UpdateDeleteKeepValid(a.table, cid, v.tags, v.desc, v.cmd);
    }
  }

  /** Control+E, Delete and Backspace only ever name a card that is still in the table. */
  lemma {:induction false} RequestedCardExists(m: Matcher, a: App, e: KeyEvent)
    requires Inv(m, a)
    ensures var eff := KeyPress(a.window, e).effect;
            (eff.EditRequest? || eff.DeleteRequest?) ==> HasId(a.table.rows, eff.cid)
  {
    var eff := KeyPress(a.window, e).effect;
    RequestNamesSelected(a.window, e);
    if eff.EditRequest? || eff.DeleteRequest? {
      var c := a.window.cards[a.window.selected];
      assert c in a.table.rows;
      var k :| 0 <= k < |a.table.rows| && a.table.rows[k] == c;
    }
  }

  /** No key press breaks the invariant, and none raises. */
  lemma {:induction false} HandleKeyKeepsInv(m: Matcher, a: App, e: KeyEvent, dialog: Option<Entry>)
    requires Inv(m, a)
    ensures HandleKey(m, a, e, dialog).Success?
    ensures Inv(m, HandleKey(m, a, e, dialog).value)
  {
    var re := KeyPress(a.window, e);
    assert HandleKey(m, a, e, dialog) == Dispatch(m, a, re, dialog);
    assert re.effect.EditRequest? || re.effect.DeleteRequest? ==> HasId(a.table.rows, re.effect.cid) by {
      RequestedCardExists(m, a, e);
    }
    DispatchKeepsInv(m, a, re, dialog);
  }

  /** What Dispatch hands each request to. */
  lemma {:induction false} DispatchCases(m: Matcher, a: App, re: Reaction, dialog: Option<Entry>)
    ensures re.effect.EditRequest? ==> Dispatch(m, a, re, dialog) == EditCard(m, a, re.effect.cid, dialog)
    ensures re.effect.DeleteRequest? ==> Dispatch(m, a, re, dialog) == Success(DeleteCard(m, a, re.effect.cid))
    ensures re.effect.AddRequest? ==> Dispatch(m, a, re, dialog) == Success(AddCmd(m, a, dialog))
    ensures re.effect.NoEffect? || re.effect.Hide? || re.effect.CopyAndHide? ==>
              Dispatch(m, a, re, dialog) == Success(a.(window := re.window, visible := re.effect.NoEffect? && a.visible))
  {
  }

  /** Carrying out a request whose card, if any, is stored keeps the invariant and never raises. */
  lemma {:induction false} DispatchKeepsInv(m: Matcher, a: App, re: Reaction, dialog: Option<Entry>)
    requires Inv(m, a)
    requires re.window.cards == a.window.cards && Consistent(re.window)
    requires re.effect.EditRequest? || re.effect.DeleteRequest? ==> HasId(a.table.rows, re.effect.cid)
    ensures Dispatch(m, a, re, dialog).Success?
    ensures Inv(m, Dispatch(m, a, re, dialog).value)
  {
    DispatchCases(m, a, re, dialog);
    if re.effect.EditRequest? {
      EditCardKeepsInv(m, a, re.effect.cid, dialog);
    } else if re.effect.DeleteRequest? {
      DeleteCardKeepsInv(m, a, re.effect.cid);
    } else if re.effect.AddRequest? {
      AddCmdKeepsInv(m, a, dialog);
    }
  }
}
