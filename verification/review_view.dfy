/**
  The view state of src/components/Video_Section/Reviews.tsx: the
  "load more / load less" window over `reviewData`, the per-row menu and
  edit toggles, and which controls each row shows.
 */
module ReviewView {
  import opened Wrappers
  import opened DescendingSort
  import opened ReviewDecode
  import opened ReviewList

  /** The `visible` state: a number of rows, or `Infinity`. */
  datatype Visible = Count(n: nat) | Infinity

  const PageSize: nat := 10

  /** The component starts by showing one page of rows. */
  const InitialVisible: Visible := Count(PageSize)

  /** `toggleLoadComments`: `Infinity` goes back to the page size, anything else shows all. */
  function ToggleLoadComments(v: Visible): (r: Visible)
    ensures r == Infinity <==> v != Infinity
    ensures r != Infinity ==> r == Count(PageSize)
  {
    if v == Infinity then Count(PageSize) else Infinity
  }

  function Min(a: nat, b: nat): nat {
    if a <= b then a else b
  }

  /**
    `reviewData.slice(0, visible)`: the first `visible` rows, all of them
    when there are fewer or when `visible` is `Infinity`. The list itself is
    a value and is not changed.
   */
  function Window<T>(list: seq<T>, v: Visible): (w: seq<T>)
    ensures |w| == (if v.Infinity? then |list| else Min(v.n, |list|))
    ensures w == list[..|w|]
  {
    match v
    case Infinity => list
    case Count(n) => if n <= |list| then list[..n] else list
  }

  /**
    Toggling twice restores the state exactly for the two values the
    component ever holds, 10 and `Infinity`; in particular from the initial
    state.
   */
  lemma ToggleTwice(v: Visible)
    ensures ToggleLoadComments(ToggleLoadComments(v)) == v <==> v == Infinity || v == Count(PageSize)
    ensures ToggleLoadComments(ToggleLoadComments(InitialVisible)) == InitialVisible
  {
  }

  /**
    What the button shows in each reachable state: the first ten rows
    initially, every row after "load more".
   */
  lemma WindowStates<T>(list: seq<T>)
    ensures Window(list, InitialVisible) == list[..Min(PageSize, |list|)]
    ensures Window(list, ToggleLoadComments(InitialVisible)) == list
    ensures Window(list, ToggleLoadComments(ToggleLoadComments(InitialVisible))) == Window(list, InitialVisible)
  {
  }

  /**
    The menu and edit state: `options` is the review whose menu is open,
    `isEdit` the review being edited, `editReview` the text typed into the
    editor. Each is `null` or one review id, so at most one menu and at most
    one editor are open at a time.
   */
  datatype Interaction = Interaction(options: Option<string>, isEdit: Option<string>, editReview: string)

  const InitialInteraction: Interaction := Interaction(None, None, "")

  /** The shared updater `prev === id ? null : id`. */
  function ToggleId(prev: Option<string>, id: string): (r: Option<string>)
    ensures r == Some(id) <==> prev != Some(id)
    ensures r == None <==> prev == Some(id)
  {
    if prev == Some(id) then None else Some(id)
  }

  /** Toggling the same id twice restores the previous state exactly when it was closed or that id. */
  lemma ToggleIdTwice(prev: Option<string>, id: string)
    ensures ToggleId(ToggleId(prev, id), id) == prev <==> prev == None || prev == Some(id)
  {
  }

  /** Clicking the "more" icon of a row: only the open menu changes. */
  function ClickMore(ui: Interaction, reviewId: string): (r: Interaction)
    ensures r.options == Some(reviewId) <==> ui.options != Some(reviewId)
    ensures r.options != Some(reviewId) ==> r.options == None
    ensures r.isEdit == ui.isEdit && r.editReview == ui.editReview
  {
    ui.(options := ToggleId(ui.options, reviewId))
  }

  /** Clicking "Edit" in a row's menu: only the edited review changes. */
  function ClickEdit(ui: Interaction, reviewId: string): (r: Interaction)
    ensures r.isEdit == Some(reviewId) <==> ui.isEdit != Some(reviewId)
    ensures r.isEdit != Some(reviewId) ==> r.isEdit == None
    ensures r.options == ui.options && r.editReview == ui.editReview
  {
    ui.(isEdit := ToggleId(ui.isEdit, reviewId))
  }

  /** Typing into the editor. */
  function TypeEdit(ui: Interaction, text: string): (r: Interaction)
    ensures r.editReview == text && r.options == ui.options && r.isEdit == ui.isEdit
  {
    ui.(editReview := text)
  }

  /** The write `updateReview(reviewId, id, editReview)` that Save issues. */
  datatype ReviewWrite = UpdateReview(reviewId: string, docId: string, text: string)

  /** `handleEdit` (Save): issue the update with the typed text, then close menu and editor and clear the text. */
  function Save(ui: Interaction, reviewId: string, docId: string): (r: (Interaction, ReviewWrite))
    ensures r.0.options.None? && r.0.isEdit.None? && r.0.editReview == ""
    ensures r.1.reviewId == reviewId && r.1.docId == docId && r.1.text == ui.editReview
  {
    (InitialInteraction, UpdateReview(reviewId, docId, ui.editReview))
  }

  /** The editor's Cancel button: close menu and editor and clear the text, issuing nothing. */
  function Cancel(ui: Interaction): (r: Interaction)
    ensures r.options.None? && r.isEdit.None? && r.editReview == ""
  {
    InitialInteraction
  }

  /** The editor's text box shows `editReview || data.review`: the stored text until something is typed. */
  function EditorText(ui: Interaction, r: Review): (t: JsVal)
    ensures ui.editReview == "" ==> t == r.review
    ensures ui.editReview != "" ==> t == Str(ui.editReview)
  {
    if ui.editReview != "" then Str(ui.editReview) else r.review
  }

  /**
    Opening the editor and saving without typing sends an empty text,
    although the editor was showing the stored review.
   */
  lemma SaveUntypedSendsEmpty(ui: Interaction, r: Review, docId: string)
    requires ui.editReview == ""
    ensures EditorText(ClickEdit(ui, r.reviewId), r) == r.review
    ensures Save(ClickEdit(ui, r.reviewId), r.reviewId, docId).1.text == ""
  {
  }

  /** Which controls one rendered row shows. */
  datatype RowView = RowView(editor: bool, menuIcon: bool, menuOpen: bool)

  /**
    One row of the list for the signed-in user `uid` (`user?.uid`, undefined
    when nobody is signed in): the editor replaces the text when the row is
    being edited; the menu icon is offered only to the review's author and
    only while the row is not being edited; the menu drops down when its id
    is the open one.
   */
  function Row(uid: JsVal, ui: Interaction, r: Review): (v: RowView)
    ensures v.editor <==> ui.isEdit == Some(r.reviewId)
    ensures v.menuIcon <==> uid == r.userId && !v.editor
    ensures v.menuOpen <==> v.menuIcon && ui.options == Some(r.reviewId)
  {
    var editing := ui.isEdit == Some(r.reviewId);
    var owner := uid == r.userId && !editing;
    RowView(editing, owner, owner && ui.options == Some(r.reviewId))
  }

  /**
    In a list whose review ids are distinct, at most one row shows the
    editor and at most one row shows an open menu, and no row shows both.
   */
  lemma AtMostOneOpen(uid: JsVal, ui: Interaction, rows: seq<Review>)
    requires DistinctBy(rows, ReviewKey)
    ensures forall i, j :: 0 <= i < j < |rows| ==>
              !(Row(uid, ui, rows[i]).editor && Row(uid, ui, rows[j]).editor)
    ensures forall i, j :: 0 <= i < j < |rows| ==>
              !(Row(uid, ui, rows[i]).menuOpen && Row(uid, ui, rows[j]).menuOpen)
    ensures forall i :: 0 <= i < |rows| ==>
              !(Row(uid, ui, rows[i]).editor && Row(uid, ui, rows[i]).menuOpen)
  {
  }
}
