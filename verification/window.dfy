/** The launcher window's result area: the cards of the last search, the selected index,
    which card is drawn as selected, the window height, and the key handler. */
module Window {
  import opened Options
  import opened Text
  import opened Store
  import opened Fuzzy
  import opened Ranking

  /** `adjust_height`'s constants: base height, height per card, and the cap. */
  const BaseHeight := 120
  const PerCard := 105
  const MaxHeight := 440

  /** `adjust_height`: the fixed window height for `count` cards. */
  function AdjustHeight(count: nat): (h: int)
    ensures BaseHeight <= h <= MaxHeight
  {
    var tall := BaseHeight + count * PerCard;
    if tall <= MaxHeight then tall else MaxHeight
  }

  /** More cards never make the window shorter. */
  lemma {:induction false} HeightMonotone(a: nat, b: nat)
    requires a <= b
    ensures AdjustHeight(a) <= AdjustHeight(b)
  {
  }

  /** A search never shows enough cards to reach the cap: every card gets its full
      105 pixels, so the height tells how many cards there are. */
  lemma {:induction false} HeightForResults(count: nat)
    requires count <= MaxResults
    ensures AdjustHeight(count) == BaseHeight + PerCard * count < MaxHeight
  {
  }

  /** `cards`, `selected_index`, each card's `selected` property, and the fixed height. */
  datatype Window = Window(cards: seq<Command>, selected: int, marks: seq<bool>, height: int)

  /** The window as `CmdPad.__init__` builds it. */
  const Initial := Window([], -1, [], AdjustHeight(0))

  /** The selection is coherent: -1 without cards and a valid index with them, exactly the
      card at that index is drawn as selected, and the height fits the card count. */
  predicate Consistent(w: Window) {
    && |w.marks| == |w.cards|
    && (w.cards == [] ==> w.selected == -1)
    && (w.cards != [] ==> 0 <= w.selected < |w.cards|)
    && (forall i :: 0 <= i < |w.marks| ==> (w.marks[i] <==> i == w.selected))
    && w.height == AdjustHeight(|w.cards|)
  }

  /** The records behind a list of hits, one card per hit. */
  function CardsOf(hits: seq<Hit>): (cards: seq<Command>)
    ensures |cards| == |hits|
    ensures forall i :: 0 <= i < |hits| ==> cards[i] == hits[i].row
  {
    if hits == [] then [] else [hits[0].row] + CardsOf(hits[1..])
  }

  /** `update_selection`: mark the card at `selected_index` and unmark all others. */
  function UpdateSelection(w: Window): (r: Window)
    ensures r.cards == w.cards && r.selected == w.selected && r.height == w.height
    ensures |r.marks| == |w.cards|
    ensures forall i :: 0 <= i < |r.marks| ==> (r.marks[i] <==> i == w.selected)
  {
    w.(marks := seq(|w.cards|, i => i == w.selected))
  }

  /** `on_search`: clear the cards, show the ranked ones, select the first, fit the height. */
  function OnSearch(m: Matcher, rows: seq<Command>, text: string): (w: Window)
    ensures Consistent(w)
    ensures w.cards == CardsOf(Rank(m, text, rows))
    ensures w.selected == if w.cards == [] then -1 else 0
    ensures |w.cards| <= MaxResults
    ensures forall i :: 0 <= i < |w.cards| ==> w.cards[i] in rows && Score(m, Strip(text), w.cards[i]) >= Threshold
  {
    var cards := CardsOf(Rank(m, text, rows));
    var shown := Window(cards, -1, seq(|cards|, i => false), AdjustHeight(|cards|));
    if cards == [] then shown else UpdateSelection(shown.(selected := 0))
  }

  /** Python's `list[i]`: negative indices count from the end; `None` is an IndexError. */
  function PyIndex<T>(s: seq<T>, i: int): (r: Option<T>)
    ensures 0 <= i < |s| ==> r == Some(s[i])
    ensures -|s| <= i < 0 ==> r == Some(s[|s| + i])
    ensures r.None? <==> !(-|s| <= i < |s|)
  {
    if 0 <= i < |s| then Some(s[i])
    else if -|s| <= i < 0 then Some(s[|s| + i])
    else None
  }

  datatype Key = Escape | Down | Up | Return | KeyE | DeleteKey | Backspace | KeyN | OtherKey

  /** A key press, with whether Control was held. */
  datatype KeyEvent = KeyEvent(key: Key, ctrl: bool)

  /** What a key press asks of the rest of the application. Copying also hides the window. */
  datatype Effect =
    | NoEffect
    | Hide
    | CopyAndHide(text: string)
    | EditRequest(cid: int)
    | DeleteRequest(cid: int)
    | AddRequest

  datatype Reaction = Reaction(window: Window, effect: Effect)

  /** The card under `selected_index`, as the key handler reads it. */
  function SelectedCard(w: Window): (r: Option<Command>)
    ensures Consistent(w) && w.cards != [] ==> r == Some(w.cards[w.selected])
  {
    PyIndex(w.cards, w.selected)
  }

  /** `keyPressEvent`, tried in the source's order. Up and Down move the selection and clamp
      it to the cards; the other keys only name an effect. An IndexError aborts the handler. */
  function KeyPress(w: Window, e: KeyEvent): (r: Reaction)
    ensures Consistent(w) ==> Consistent(r.window)
    ensures r.window.cards == w.cards && r.window.height == w.height
    ensures e.key !in {Down, Up} ==> r.window == w
    ensures w.cards == [] ==> r.window == w
    ensures e.key == Escape ==> r.effect == Hide
    ensures e.key == KeyN && e.ctrl ==> r.effect == AddRequest
    ensures e.key == OtherKey || (e.key in {KeyE, KeyN} && !e.ctrl) ==> r.effect == NoEffect
    ensures e.key in {Down, Up} ==> r.effect == NoEffect
    ensures w.cards == [] && e.key in {Return, KeyE, DeleteKey, Backspace} ==> r.effect == NoEffect
  {
    if e.key == Escape then Reaction(w, Hide)
    else if e.key == Down && w.cards != [] then
      var next := if w.selected + 1 <= |w.cards| - 1 then w.selected + 1 else |w.cards| - 1;
      Reaction(UpdateSelection(w.(selected := next)), NoEffect)
    else if e.key == Up && w.cards != [] then
      var next := if w.selected - 1 >= 0 then w.selected - 1 else 0;
      Reaction(UpdateSelection(w.(selected := next)), NoEffect)
    else if e.key == Return && w.cards != [] then
      match SelectedCard(w)
      case Some(c) => Reaction(w, CopyAndHide(c.cmd))
      case None => Reaction(w, NoEffect)
    else if e.key == KeyE && e.ctrl then
      if w.cards == [] then Reaction(w, NoEffect)
      else
        match SelectedCard(w)
        case Some(c) => Reaction(w, EditRequest(c.id))
        case None => Reaction(w, NoEffect)
    else if (e.key == DeleteKey || e.key == Backspace) && w.cards != [] then
      match SelectedCard(w)
      case Some(c) => Reaction(w, DeleteRequest(c.id))
      case None => Reaction(w, NoEffect)
    else if e.key == KeyN && e.ctrl then Reaction(w, AddRequest)
    else Reaction(w, NoEffect)
  }

  /** Down moves one card further unless the last card is selected; Up one card back unless
      the first is. Neither leaves the cards. */
  lemma {:induction false} ArrowsClamp(w: Window, ctrl: bool)
    requires Consistent(w) && w.cards != []
    ensures KeyPress(w, KeyEvent(Down, ctrl)).window.selected
            == if w.selected < |w.cards| - 1 then w.selected + 1 else w.selected
    ensures KeyPress(w, KeyEvent(Up, ctrl)).window.selected
            == if w.selected > 0 then w.selected - 1 else 0
  {
  }

  /** With a coherent selection, Return copies the selected card's command, and Control+E,
      Delete and Backspace act on the selected card's id. */
  lemma {:induction false} KeysActOnSelection(w: Window, ctrl: bool)
    requires Consistent(w) && w.cards != []
    ensures KeyPress(w, KeyEvent(Return, ctrl)).effect == CopyAndHide(w.cards[w.selected].cmd)
    ensures KeyPress(w, KeyEvent(KeyE, true)).effect == EditRequest(w.cards[w.selected].id)
    ensures KeyPress(w, KeyEvent(DeleteKey, ctrl)).effect == DeleteRequest(w.cards[w.selected].id)
    ensures KeyPress(w, KeyEvent(Backspace, ctrl)).effect == DeleteRequest(w.cards[w.selected].id)
  {
  }

  /** Whatever card a key asks to edit or delete is the selected one. */
  lemma {:induction false} RequestNamesSelected(w: Window, e: KeyEvent)
    requires Consistent(w)
    ensures var eff := KeyPress(w, e).effect;
            (eff.EditRequest? || eff.DeleteRequest?) ==> w.cards != [] && eff.cid == w.cards[w.selected].id
  {
  }

  /** `n` presses of the same key. */
  function Press(w: Window, e: KeyEvent, n: nat): (r: Window)
    ensures Consistent(w) ==> Consistent(r)
    ensures r.cards == w.cards
    decreases n
  {
    if n == 0 then w else Press(KeyPress(w, e).window, e, n - 1)
  }

  /** Holding Down walks to the last card and stays there; holding Up walks back to the first. */
  lemma {:induction false} PressArrows(w: Window, ctrl: bool, n: nat)
    requires Consistent(w) && w.cards != []
    ensures Press(w, KeyEvent(Down, ctrl), n).selected
            == if w.selected + n < |w.cards| then w.selected + n else |w.cards| - 1
    ensures Press(w, KeyEvent(Up, ctrl), n).selected
            == if w.selected - n > 0 then w.selected - n else 0
  {
    PressDown(w, ctrl, n);
    PressUp(w, ctrl, n);
  }

  /** The Down half of PressArrows. */
  lemma {:induction false} PressDown(w: Window, ctrl: bool, n: nat)
    requires Consistent(w) && w.cards != []
    ensures Press(w, KeyEvent(Down, ctrl), n).selected
            == if w.selected + n < |w.cards| then w.selected + n else |w.cards| - 1
    decreases n
  {
    if n > 0 {
      ArrowsClamp(w, ctrl);
      PressDown(KeyPress(w, KeyEvent(Down, ctrl)).window, ctrl, n - 1);
    }
  }

  /** The Up half of PressArrows. */
  lemma {:induction false} PressUp(w: Window, ctrl: bool, n: nat)
    requires Consistent(w) && w.cards != []
    ensures Press(w, KeyEvent(Up, ctrl), n).selected
            == if w.selected - n > 0 then w.selected - n else 0
    decreases n
  {
    if n > 0 {
      ArrowsClamp(w, ctrl);
      PressUp(KeyPress(w, KeyEvent(Up, ctrl)).window, ctrl, n - 1);
    }
  }

}
