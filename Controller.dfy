/**
 * The editor-replacement controller, `replaceDescriptionEditor` with its
 * save and cancel callbacks. The document is abstract: the host elements the
 * controller looks up are handles, each with an inline `display` value; the
 * substitute editors it inserts are records; everything the controller sends
 * or shows outside the document is appended to an effect log.
 *
 * The specification functions `Activation`, `Editing`, `Saving` and
 * `Cancellation` give the new document as a function of the old one; the
 * `Page` methods are proved against them and the lemmas state what the
 * controller promises about them.
 */
module Controller {
  import opened Wrappers
  import opened Text
  import opened Effects
  import opened Parsers
  import opened Remote

  /** An abstract handle of a host element. */
  type Node = nat

  /** A host button: its `textContent` and its `closest('div')`. */
  datatype Button = Button(text: string, enclosingDiv: Option<Node>)

  /**
   * What the host page answers to the controller's queries, which are
   * browser calls and not modelled.
   */
  datatype HostView = HostView(
    editorRoot: Option<Node>,       // document.querySelector('.ProseMirror')
    akEditor: Option<Node>,         // editorRoot.closest('.akEditor'), the editor surface
    editorContainer: Option<Node>,  // akEditor.parentElement
    main: Option<Node>,             // editorRoot.closest('main')
    mainButtons: seq<Button>,       // main.querySelectorAll('button'), in document order
    documentButtons: seq<Button>,   // document.querySelectorAll('button'), in document order
    toolbar: Option<Node>)          // document.querySelector('[data-testid="ak-editor-main-toolbar"]')

  /**
   * A mounted substitute editor: the element carrying `data-md-editor-replaced`,
   * its textarea's current text, and what its callbacks captured when it was
   * built (the card id and the three hidden host elements).
   */
  datatype Substitute = Substitute(
    text: string,
    shortLink: string,
    parent: Node,             // inserted into this element ...
    before: Node,             // ... immediately before this one, the hidden editor surface
    toolbar: Option<Node>,
    buttonGroup: Option<Node>)

  /** The part of the document the controller reads and writes, with the effect log. */
  datatype Doc = Doc(display: map<Node, string>, substitutes: seq<Substitute>, effects: seq<Effect>)

  /** `node.style.display`; an element without an inline value has `''`. */
  function DisplayOf(display: map<Node, string>, n: Node): string {
    if n in display then display[n] else ""
  }

  /** `if (node) node.style.display = value`. */
  function SetDisplay(display: map<Node, string>, node: Option<Node>, value: string): (r: map<Node, string>)
    ensures forall n: Node :: DisplayOf(r, n) == if node == Some(n) then value else DisplayOf(display, n)
  {
    if node.Some? then display[node.value := value] else display
  }

  /** Sets the inline display of the toolbar, the editor surface and the button group. */
  function SetHostDisplay(display: map<Node, string>, toolbar: Option<Node>, surface: Node,
                          group: Option<Node>, value: string): map<Node, string>
  {
    SetDisplay(SetDisplay(SetDisplay(display, toolbar, value), Some(surface), value), group, value)
  }

  /** `n` is one of the three host elements the controller hides. */
  predicate IsHostPart(n: Node, toolbar: Option<Node>, surface: Node, group: Option<Node>) {
    n == surface || toolbar == Some(n) || group == Some(n)
  }

  /** Setting the three host elements changes exactly those. */
  lemma SetHostDisplayEffect(display: map<Node, string>, toolbar: Option<Node>, surface: Node,
                             group: Option<Node>, value: string)
    ensures forall n: Node :: DisplayOf(SetHostDisplay(display, toolbar, surface, group, value), n)
                        == if IsHostPart(n, toolbar, surface, group) then value else DisplayOf(display, n)
  {
  }

  // ---------------------------------------------------------------------
  // The host's Save button: the last button whose trimmed text is "Save"
  // ---------------------------------------------------------------------

  predicate IsSaveButton(b: Button) {
    Trim(b.text) == "Save"
  }

  /** The index of the last Save button, or none when there is none. */
  function LastSaveIndex(buttons: seq<Button>): (r: Option<nat>)
    ensures r.Some? ==> r.value < |buttons| && IsSaveButton(buttons[r.value])
  {
    if buttons == [] then None
    else if IsSaveButton(buttons[|buttons| - 1]) then Some(|buttons| - 1)
    else LastSaveIndex(buttons[..|buttons| - 1])
  }

  /**
   * Every Save button is found or is followed by the one found: no Save
   * button comes after the found one, and none is found only when there is none.
   */
  lemma {:induction false} LastSaveIndexIsLast(buttons: seq<Button>, j: nat)
    requires j < |buttons| && IsSaveButton(buttons[j])
    ensures LastSaveIndex(buttons).Some? && j <= LastSaveIndex(buttons).value
  {
    if j < |buttons| - 1 && !IsSaveButton(buttons[|buttons| - 1]) {
      var front := buttons[..|buttons| - 1];
      assert front[j] == buttons[j];
      LastSaveIndexIsLast(front, j);
    }
  }

  /** The `for` loop that overwrites `saveBtn` at each Save button, so that the last one wins. */
  method FindSaveButton(buttons: seq<Button>) returns (saveBtn: Option<nat>)
    ensures saveBtn == LastSaveIndex(buttons)
  {
    saveBtn := None;
    for i := 0 to |buttons|
      invariant saveBtn == LastSaveIndex(buttons[..i])
    {
      assert buttons[..i + 1][..i] == buttons[..i];
      if IsSaveButton(buttons[i]) {
        saveBtn := Some(i);
      }
    }
    assert buttons[..|buttons|] == buttons;
  }

  /** The buttons searched: those of `main` when the editor is inside one, otherwise all. */
  function ButtonScope(h: HostView): seq<Button> {
    if h.main.Some? then h.mainButtons else h.documentButtons
  }

  /** `saveBtn?.closest('div')`. */
  function SaveButtonGroup(h: HostView): Option<Node> {
    match LastSaveIndex(ButtonScope(h))
    case None => None
    case Some(k) => ButtonScope(h)[k].enclosingDiv
  }

  // ---------------------------------------------------------------------
  // Specification of the controller's steps
  // ---------------------------------------------------------------------

  /** The host elements were all found. */
  predicate EditorMounted(h: HostView) {
    h.editorRoot.Some? && h.akEditor.Some? && h.editorContainer.Some?
  }

  /** The successful end of an activation: hide the host elements and insert the substitute. */
  function Mount(h: HostView, d: Doc, shortLink: string, text: string): Doc
    requires EditorMounted(h)
  {
    var surface, group := h.akEditor.value, SaveButtonGroup(h);
    d.(display := SetHostDisplay(d.display, h.toolbar, surface, group, "none"),
       substitutes := d.substitutes + [Substitute(text, shortLink, h.editorContainer.value, surface, h.toolbar, group)])
  }

  /** One activation of `replaceDescriptionEditor`, performed without interruption. */
  function Activation(h: HostView, d: Doc, shortLink: Option<string>, reply: FetchReply): Doc {
    if |d.substitutes| > 0 || !EditorMounted(h) then d
    else match shortLink
      case None => d.(effects := d.effects + [ConsoleError(NoCardIdMessage)])
      case Some(id) =>
        var fetched := FetchCardDescription(id, reply);
        var d' := d.(effects := d.effects + fetched.effects);
        if fetched.text.None? then d' else Mount(h, d', id, fetched.text.value)
  }

  /** The user types into the substitute's textarea. */
  function Editing(d: Doc, text: string): Doc
    requires |d.substitutes| > 0
  {
    d.(substitutes := [d.substitutes[0].(text := text)] + d.substitutes[1..])
  }

  /** The Save callback: save the current text, then reload on success or alert on failure. */
  function Saving(d: Doc, dsc: Option<string>, putOk: bool): Doc
    requires |d.substitutes| > 0
  {
    var s := d.substitutes[0];
    var saved := SaveCardDescription(s.shortLink, s.text, dsc, putOk);
    d.(effects := d.effects + saved.effects + [if saved.success then Reload else Alert(SaveFailedAlert)])
  }

  /** The Cancel callback: remove the substitute and clear the three inline display values. */
  function Cancellation(d: Doc): Doc
    requires |d.substitutes| > 0
  {
    var s := d.substitutes[0];
    d.(substitutes := d.substitutes[1..],
       display := SetHostDisplay(d.display, s.toolbar, s.before, s.buttonGroup, ""))
  }

  /** Gives `node` back the inline display it had in `before`. */
  function RestoreDisplay(display: map<Node, string>, node: Option<Node>, before: map<Node, string>): map<Node, string> {
    SetDisplay(display, node, if node.Some? then DisplayOf(before, node.value) else "")
  }

  /**
   * The cancel that "restore original editor" calls for: remove the
   * substitute and give the three hidden elements back the inline display
   * they had in `before`, the document as it was when the substitute was
   * mounted.
   */
  function RestoringCancellation(d: Doc, before: map<Node, string>): Doc
    requires |d.substitutes| > 0
  {
    var s := d.substitutes[0];
    d.(substitutes := d.substitutes[1..],
       display := RestoreDisplay(RestoreDisplay(RestoreDisplay(d.display, s.toolbar, before),
                                                Some(s.before), before), s.buttonGroup, before))
  }

  // ---------------------------------------------------------------------
  // Properties of the specification
  // ---------------------------------------------------------------------

  /** The Save button chosen is the last one in scope, and its group is that button's `div`. */
  lemma SaveButtonGroupIsLastSave(h: HostView, k: nat)
    requires k < |ButtonScope(h)| && IsSaveButton(ButtonScope(h)[k])
    ensures LastSaveIndex(ButtonScope(h)).Some?
    ensures var last := LastSaveIndex(ButtonScope(h)).value;
            k <= last && IsSaveButton(ButtonScope(h)[last]) && SaveButtonGroup(h) == ButtonScope(h)[last].enclosingDiv
  {
    LastSaveIndexIsLast(ButtonScope(h), k);
  }

  /** Without any Save button in scope, no button group is hidden. */
  lemma NoSaveButtonNoGroup(h: HostView)
    requires forall k :: 0 <= k < |ButtonScope(h)| ==> !IsSaveButton(ButtonScope(h)[k])
    ensures SaveButtonGroup(h) == None
  {
  }

  /** A document that already holds a substitute is left exactly as it is. */
  lemma ActivationGuarded(h: HostView, d: Doc, shortLink: Option<string>, reply: FetchReply)
    requires |d.substitutes| > 0
    ensures Activation(h, d, shortLink, reply) == d
  {
  }

  /**
   * Activating again after a successful activation changes nothing, whatever
   * the page's address and the server's answer are then.
   */
  lemma ActivationIdempotent(h: HostView, d: Doc, shortLink: Option<string>, reply: FetchReply,
                             shortLink': Option<string>, reply': FetchReply)
    requires |Activation(h, d, shortLink, reply).substitutes| > 0
    ensures var once := Activation(h, d, shortLink, reply);
            Activation(h, once, shortLink', reply') == once
  {
  }

  /** Activation never adds a second substitute. */
  lemma ActivationAtMostOne(h: HostView, d: Doc, shortLink: Option<string>, reply: FetchReply)
    requires |d.substitutes| <= 1
    ensures |Activation(h, d, shortLink, reply).substitutes| <= 1
    ensures |Activation(h, d, shortLink, reply).substitutes| == 1 <==>
              |d.substitutes| == 1 || (EditorMounted(h) && shortLink.Some? && reply.FetchBody?)
  {
  }

  /** Without the editor, its wrapper or the wrapper's parent, activation does nothing at all. */
  lemma ActivationWithoutEditor(h: HostView, d: Doc, shortLink: Option<string>, reply: FetchReply)
    requires !EditorMounted(h)
    ensures Activation(h, d, shortLink, reply) == d
  {
  }

  /** Without a card id, activation logs one error, sends nothing and changes nothing else. */
  lemma ActivationWithoutCardId(h: HostView, d: Doc, shortLink: Option<string>, reply: FetchReply)
    requires d.substitutes == [] && EditorMounted(h) && shortLink.None?
    ensures var a := Activation(h, d, shortLink, reply);
            a.display == d.display && a.substitutes == [] && a.effects == d.effects + [ConsoleError(NoCardIdMessage)]
            && Requests(a.effects) == Requests(d.effects)
            && Occurrences(a.effects, ConsoleError(NoCardIdMessage)) == Occurrences(d.effects, ConsoleError(NoCardIdMessage)) + 1
  {
    RequestsAppend(d.effects, [ConsoleError(NoCardIdMessage)]);
    OccurrencesAppend(d.effects, [ConsoleError(NoCardIdMessage)], ConsoleError(NoCardIdMessage));
    Single(ConsoleError(NoCardIdMessage), ConsoleError(NoCardIdMessage));
  }

  /** A failed fetch sends the one request, logs one error, and hides and mounts nothing. */
  lemma ActivationFetchFails(h: HostView, d: Doc, id: string)
    requires d.substitutes == [] && EditorMounted(h)
    ensures var a := Activation(h, d, Some(id), FetchFailed);
            a.display == d.display && a.substitutes == []
            && a.effects == d.effects + [FetchRequest(id), ConsoleError(FetchErrorMessage)]
            && Requests(a.effects) == Requests(d.effects) + [FetchRequest(id)]
            && Occurrences(a.effects, ConsoleError(FetchErrorMessage)) == Occurrences(d.effects, ConsoleError(FetchErrorMessage)) + 1
  {
    var fetched := FetchCardDescription(id, FetchFailed);
    RequestsAppend(d.effects, fetched.effects);
    OccurrencesAppend(d.effects, fetched.effects, ConsoleError(FetchErrorMessage));
  }

  /** Mounting appends the substitute, hides exactly the three host elements and logs nothing. */
  lemma MountHidesHost(h: HostView, d: Doc, shortLink: string, text: string)
    requires EditorMounted(h)
    ensures var m, group := Mount(h, d, shortLink, text), SaveButtonGroup(h);
            m.substitutes == d.substitutes + [Substitute(text, shortLink, h.editorContainer.value, h.akEditor.value,
                                                         h.toolbar, group)]
            && (forall n: Node :: DisplayOf(m.display, n) ==
                  if IsHostPart(n, h.toolbar, h.akEditor.value, group) then "none" else DisplayOf(d.display, n))
            && m.effects == d.effects
  {
    SetHostDisplayEffect(d.display, h.toolbar, h.akEditor.value, SaveButtonGroup(h), "none");
  }

  /**
   * A successful activation sends one fetch, hides exactly the toolbar, the
   * editor surface and the last Save button's group, and mounts one
   * substitute showing the fetched text before the hidden surface.
   */
  lemma ActivationMounts(h: HostView, d: Doc, id: string, desc: Option<string>)
    requires d.substitutes == [] && EditorMounted(h)
    ensures var a := Activation(h, d, Some(id), FetchBody(desc));
            a.substitutes == [Substitute(desc.GetOr(""), id, h.editorContainer.value, h.akEditor.value,
                                         h.toolbar, SaveButtonGroup(h))]
            && (forall n: Node :: DisplayOf(a.display, n) ==
                  if IsHostPart(n, h.toolbar, h.akEditor.value, SaveButtonGroup(h)) then "none" else DisplayOf(d.display, n))
            && a.effects == d.effects + [FetchRequest(id)]
            && Requests(a.effects) == Requests(d.effects) + [FetchRequest(id)]
  {
    var fetchedDoc := d.(effects := d.effects + [FetchRequest(id)]);
    assert Activation(h, d, Some(id), FetchBody(desc)) == Mount(h, fetchedDoc, id, desc.GetOr(""));
    assert Requests(fetchedDoc.effects) == Requests(d.effects) + [FetchRequest(id)] by {
      RequestsAppend(d.effects, [FetchRequest(id)]);
      Single(FetchRequest(id), FetchRequest(id));
    }
    MountHidesHost(h, fetchedDoc, id, desc.GetOr(""));
  }

  /** A card without a description, or with an empty one, still gets the substitute, showing `''`. */
  lemma EmptyDescriptionProceeds(h: HostView, d: Doc, shortLink: Option<string>, desc: Option<string>)
    requires d.substitutes == [] && EditorMounted(h) && shortLink.Some?
    requires desc == None || desc == Some("")
    ensures var a := Activation(h, d, shortLink, FetchBody(desc));
            |a.substitutes| == 1 && a.substitutes[0].text == ""
  {
  }

  /**
   * Cancel removes the substitute and sets the inline display of exactly the
   * three elements it hid to `''`; nothing is sent.
   */
  lemma CancelRestores(d: Doc)
    requires |d.substitutes| == 1
    ensures var c, s := Cancellation(d), d.substitutes[0];
            c.substitutes == [] && c.effects == d.effects
            && forall n: Node :: DisplayOf(c.display, n) ==
                 if IsHostPart(n, s.toolbar, s.before, s.buttonGroup) then "" else DisplayOf(d.display, n)
  {
    var s := d.substitutes[0];
    SetHostDisplayEffect(d.display, s.toolbar, s.before, s.buttonGroup, "");
  }

  /**
   * When the hidden elements had no inline display of their own before the
   * activation, cancelling brings every display value back to what it was.
   */
  lemma MountThenCancelRestoresExactly(h: HostView, d: Doc, id: string, desc: Option<string>)
    requires d.substitutes == [] && EditorMounted(h)
    requires forall n: Node :: IsHostPart(n, h.toolbar, h.akEditor.value, SaveButtonGroup(h)) ==> DisplayOf(d.display, n) == ""
    ensures var c := Cancellation(Activation(h, d, Some(id), FetchBody(desc)));
            c.substitutes == [] && forall n: Node :: DisplayOf(c.display, n) == DisplayOf(d.display, n)
  {
    var fetchedDoc := d.(effects := d.effects + [FetchRequest(id)]);
    var a := Mount(h, fetchedDoc, id, desc.GetOr(""));
    assert Activation(h, d, Some(id), FetchBody(desc)) == a;
    MountHidesHost(h, fetchedDoc, id, desc.GetOr(""));
    CancelRestores(a);
  }

  /**
   * An inline display value the host had set on a hidden element is not
   * brought back by cancel: a toolbar shown as, say, `flex` is left at `''`.
   */
  lemma CancelDoesNotRestoreOwnDisplay(h: HostView, d: Doc, id: string, desc: Option<string>, t: Node)
    requires d.substitutes == [] && EditorMounted(h) && h.toolbar == Some(t) && DisplayOf(d.display, t) != ""
    ensures var c := Cancellation(Activation(h, d, Some(id), FetchBody(desc)));
            DisplayOf(c.display, t) == "" && DisplayOf(c.display, t) != DisplayOf(d.display, t)
  {
    var a := Activation(h, d, Some(id), FetchBody(desc));
    ActivationMounts(h, d, id, desc);
    CancelRestores(a);
  }

  /** The restoring cancel gives exactly the three hidden elements their display from `before`. */
  lemma RestoringCancellationEffect(d: Doc, before: map<Node, string>)
    requires |d.substitutes| > 0
    ensures var c, s := RestoringCancellation(d, before), d.substitutes[0];
            c.substitutes == d.substitutes[1..] && c.effects == d.effects
            && forall n: Node :: DisplayOf(c.display, n) ==
                 if IsHostPart(n, s.toolbar, s.before, s.buttonGroup) then DisplayOf(before, n) else DisplayOf(d.display, n)
  {
  }

  /**
   * With the restoring cancel, activate-then-cancel gives back every inline
   * display value, whatever the host had set before.
   */
  lemma MountThenRestoringCancelRestores(h: HostView, d: Doc, id: string, desc: Option<string>)
    requires d.substitutes == [] && EditorMounted(h)
    ensures var c := RestoringCancellation(Activation(h, d, Some(id), FetchBody(desc)), d.display);
            c.substitutes == [] && forall n: Node :: DisplayOf(c.display, n) == DisplayOf(d.display, n)
  {
    var fetchedDoc := d.(effects := d.effects + [FetchRequest(id)]);
    var a := Mount(h, fetchedDoc, id, desc.GetOr(""));
    assert Activation(h, d, Some(id), FetchBody(desc)) == a;
    MountHidesHost(h, fetchedDoc, id, desc.GetOr(""));
    RestoringCancellationEffect(a, d.display);
  }

  /** After cancel the guard is gone: a new activation on the same page mounts a substitute again. */
  lemma CancelRearms(h: HostView, d: Doc, shortLink: Option<string>, desc: Option<string>)
    requires |d.substitutes| == 1 && EditorMounted(h) && shortLink.Some?
    ensures |Activation(h, Cancellation(d), shortLink, FetchBody(desc)).substitutes| == 1
  {
  }

  /** Saving leaves the document alone and adds effects only. */
  lemma SavingKeepsDocument(d: Doc, dsc: Option<string>, putOk: bool)
    requires |d.substitutes| > 0
    ensures var v := Saving(d, dsc, putOk);
            v.display == d.display && v.substitutes == d.substitutes && |v.effects| > |d.effects|
            && v.effects[..|d.effects|] == d.effects
  {
  }

  /**
   * The effects of a save: the client's own, then exactly one reload when it
   * succeeded or exactly one alert when it failed.
   */
  lemma SavingEffects(d: Doc, dsc: Option<string>, putOk: bool)
    requires |d.substitutes| > 0
    ensures var v, s := Saving(d, dsc, putOk), d.substitutes[0];
            var saved := SaveCardDescription(s.shortLink, s.text, dsc, putOk);
            && Requests(v.effects) == Requests(d.effects) + Requests(saved.effects)
            && Occurrences(v.effects, Reload) == Occurrences(d.effects, Reload) + (if saved.success then 1 else 0)
            && Occurrences(v.effects, Alert(SaveFailedAlert))
               == Occurrences(d.effects, Alert(SaveFailedAlert)) + (if saved.success then 0 else 1)
            && |v.effects| == |d.effects| + |saved.effects| + 1
            && v.effects[..|d.effects| + |saved.effects|] == d.effects + saved.effects
            && v.effects[|v.effects| - 1] == (if saved.success then Reload else Alert(SaveFailedAlert))
  {
    var s := d.substitutes[0];
    var saved := SaveCardDescription(s.shortLink, s.text, dsc, putOk);
    var last := if saved.success then Reload else Alert(SaveFailedAlert);
    assert Saving(d, dsc, putOk).effects == d.effects + saved.effects + [last];
    AppendOne(d.effects, saved.effects, last, Reload);
    AppendOne(d.effects, saved.effects, last, Alert(SaveFailedAlert));
    assert Requests(d.effects) + Requests(saved.effects) + [] == Requests(d.effects) + Requests(saved.effects);
  }

  /** A save without a usable token sends nothing, alerts once and keeps the edited text on screen. */
  lemma SaveWithoutTokenSendsNothing(d: Doc, dsc: Option<string>, putOk: bool)
    requires |d.substitutes| > 0 && !HasUsableToken(dsc)
    ensures var v := Saving(d, dsc, putOk);
            Requests(v.effects) == Requests(d.effects) && v.substitutes == d.substitutes
            && Occurrences(v.effects, Alert(SaveFailedAlert)) == Occurrences(d.effects, Alert(SaveFailedAlert)) + 1
            && Occurrences(v.effects, Reload) == Occurrences(d.effects, Reload)
  {
    SavingEffects(d, dsc, putOk);
    assert Requests(d.effects) + [] == Requests(d.effects);
  }

  /** A save that succeeds sends the substitute's text and reloads exactly once, and alerts nothing. */
  lemma SaveSucceedsReloadsOnce(d: Doc, dsc: Option<string>)
    requires |d.substitutes| > 0 && HasUsableToken(dsc)
    ensures var v, s := Saving(d, dsc, true), d.substitutes[0];
            Requests(v.effects) == Requests(d.effects) + [PutRequest(s.shortLink, s.text, dsc.value)]
            && Occurrences(v.effects, Reload) == Occurrences(d.effects, Reload) + 1
            && Occurrences(v.effects, Alert(SaveFailedAlert)) == Occurrences(d.effects, Alert(SaveFailedAlert))
            && |v.effects| > |d.effects| && v.effects[|v.effects| - 1] == Reload
            && Requests(v.effects[..|v.effects| - 1]) == Requests(d.effects) + [PutRequest(s.shortLink, s.text, dsc.value)]
            && forall k :: |d.effects| <= k < |v.effects| ==> !v.effects[k].Alert?
  {
    var v, s := Saving(d, dsc, true), d.substitutes[0];
    var saved := SaveCardDescription(s.shortLink, s.text, dsc, true);
    SavingEffects(d, dsc, true);
    assert v.effects[..|v.effects| - 1] == d.effects + saved.effects;
    RequestsAppend(d.effects, saved.effects);
    forall k | |d.effects| <= k < |v.effects| ensures !v.effects[k].Alert? {
      if k < |v.effects| - 1 {
        assert v.effects[k] == (d.effects + saved.effects)[k] == saved.effects[k - |d.effects|];
      }
    }
  }

  /** A save that fails, for want of a token or at the server, alerts once, never reloads and keeps the text. */
  lemma SaveFails(d: Doc, dsc: Option<string>, putOk: bool)
    requires |d.substitutes| > 0 && (!HasUsableToken(dsc) || !putOk)
    ensures var v := Saving(d, dsc, putOk);
            v.substitutes == d.substitutes
            && Occurrences(v.effects, Alert(SaveFailedAlert)) == Occurrences(d.effects, Alert(SaveFailedAlert)) + 1
            && Occurrences(v.effects, Reload) == Occurrences(d.effects, Reload)
            && |v.effects| > |d.effects| && v.effects[|v.effects| - 1] == Alert(SaveFailedAlert)
            && forall k :: |d.effects| <= k < |v.effects| ==> !v.effects[k].Reload?
  {
    var v, s := Saving(d, dsc, putOk), d.substitutes[0];
    var saved := SaveCardDescription(s.shortLink, s.text, dsc, putOk);
    SavingEffects(d, dsc, putOk);
    forall k | |d.effects| <= k < |v.effects| ensures !v.effects[k].Reload? {
      if k < |v.effects| - 1 {
        assert v.effects[k] == v.effects[..|d.effects| + |saved.effects|][k] == saved.effects[k - |d.effects|];
      }
    }
  }

  /** What is saved is what was last typed, for the card the substitute was built for. */
  lemma EditThenSaveSendsEdit(d: Doc, text: string, dsc: Option<string>, putOk: bool)
    requires |d.substitutes| > 0 && HasUsableToken(dsc)
    ensures var v := Saving(Editing(d, text), dsc, putOk);
            Requests(v.effects) == Requests(d.effects) + [PutRequest(d.substitutes[0].shortLink, text, dsc.value)]
  {
    SavingEffects(Editing(d, text), dsc, putOk);
  }

  // ---------------------------------------------------------------------
  // The imperative controller
  // ---------------------------------------------------------------------

  class Page {
    const host: HostView
    var display: map<Node, string>
    var substitutes: seq<Substitute>
    var effects: seq<Effect>

    function State(): Doc
      reads this
    {
      Doc(display, substitutes, effects)
    }

    /** At most one substitute editor is in the document. */
    ghost predicate Valid()
      reads this
    {
      |substitutes| <= 1
    }

    /** A freshly loaded page: no substitute, nothing done yet. */
    constructor (host: HostView, display: map<Node, string>)
      ensures this.host == host && State() == Doc(display, [], []) && Valid()
    {
      this.host := host;
      this.display := display;
      this.substitutes := [];
      this.effects := [];
    }

    /** `replaceDescriptionEditor`, with the fetch answered by `reply`. */
    method Activate(pathname: string, reply: FetchReply)
      requires Valid()
      modifies this
      ensures Valid()
      ensures State() == Activation(host, old(State()), GetCardShortLink(pathname), reply)
    {
      var shortLink := GetCardShortLink(pathname);
      ActivateFor(shortLink, reply);
    }

    /** `replaceDescriptionEditor` once the card id has been read off the path. */
    method ActivateFor(shortLink: Option<string>, reply: FetchReply)
      requires Valid()
      modifies this
      ensures Valid()
      ensures State() == Activation(host, old(State()), shortLink, reply)
    {
      if |substitutes| > 0 {
        return;
      }
      if host.editorRoot.None? || host.akEditor.None? || host.editorContainer.None? {
        return;
      }
      if shortLink.None? {
        effects := effects + [ConsoleError(NoCardIdMessage)];
        return;
      }
      var fetched := FetchCardDescription(shortLink.value, reply);
      effects := effects + fetched.effects;
      if fetched.text.None? {
        return;
      }
      MountSubstitute(shortLink.value, fetched.text.value);
    }

    /** Hides the host toolbar, editor surface and Save button group, and inserts the substitute. */
    method MountSubstitute(shortLink: string, text: string)
      requires Valid() && substitutes == [] && EditorMounted(host)
      modifies this
      ensures Valid() && |substitutes| == 1
      ensures State() == Mount(host, old(State()), shortLink, text)
    {
      var akEditor := host.akEditor.value;
      var buttons := if host.main.Some? then host.mainButtons else host.documentButtons;
      var saveBtn := FindSaveButton(buttons);
      var group := if saveBtn.Some? then buttons[saveBtn.value].enclosingDiv else None;
      assert group == SaveButtonGroup(host);
      var toolbar := host.toolbar;
      display := SetDisplay(display, toolbar, "none");
      display := SetDisplay(display, Some(akEditor), "none");
      display := SetDisplay(display, group, "none");
      substitutes := substitutes + [Substitute(text, shortLink, host.editorContainer.value, akEditor, toolbar, group)];
    }

    /** Typing into the mounted substitute's textarea. */
    method Edit(text: string)
      requires Valid() && |substitutes| == 1
      modifies this
      ensures Valid() && |substitutes| == 1
      ensures State() == Editing(old(State()), text)
    {
      substitutes := [substitutes[0].(text := text)];
    }

    /** The substitute's Save button, with `document.cookie` equal to `cookie`. */
    method Save(cookie: string, putOk: bool)
      requires Valid() && |substitutes| == 1
      modifies this
      ensures Valid() && |substitutes| == 1
      ensures State() == Saving(old(State()), GetCsrfToken(cookie), putOk)
    {
      var s := substitutes[0];
      var saved := SaveCardDescription(s.shortLink, s.text, GetCsrfToken(cookie), putOk);
      effects := effects + saved.effects;
      if saved.success {
        effects := effects + [Reload];
      } else {
        effects := effects + [Alert(SaveFailedAlert)];
      }
    }

    /** The substitute's Cancel button. */
    method Cancel()
      requires Valid() && |substitutes| == 1
      modifies this
      ensures Valid() && substitutes == []
      ensures State() == Cancellation(old(State()))
    {
      var s := substitutes[0];
      substitutes := [];
      if s.toolbar.Some? {
        display := display[s.toolbar.value := ""];
      }
      display := display[s.before := ""];
      if s.buttonGroup.Some? {
        display := display[s.buttonGroup.value := ""];
      }
    }
  }

  // ---------------------------------------------------------------------
  // Scenarios on a fresh page
  // ---------------------------------------------------------------------

  /** Opening a card on a fresh page mounts the substitute with the card's text and sends one fetch. */
  lemma OpenCard(h: HostView, d: Doc, id: string, text: string)
    requires EditorMounted(h) && d.substitutes == [] && d.effects == []
    ensures var a := Activation(h, d, Some(id), FetchBody(Some(text)));
            |a.substitutes| == 1 && a.substitutes[0].shortLink == id && a.substitutes[0].text == text
            && a.effects == [FetchRequest(id)]
            && Requests(a.effects) == [FetchRequest(id)] && Occurrences(a.effects, Reload) == 0
            && Occurrences(a.effects, Alert(SaveFailedAlert)) == 0
  {
    ActivationMounts(h, d, id, Some(text));
    Single(FetchRequest(id), Reload);
    Single(FetchRequest(id), Alert(SaveFailedAlert));
  }

  /** A fresh page on which the card `id` whose description is `text` is opened and `edit` typed in. */
  method OpenAndEdit(host: HostView, pathname: string, text: string, edit: string, id: string) returns (page: Page)
    requires EditorMounted(host)
    requires GetCardShortLink(pathname) == Some(id)
    ensures fresh(page) && page.host == host && page.Valid()
    ensures |page.substitutes| == 1 && page.substitutes[0].shortLink == id && page.substitutes[0].text == edit
    ensures page.effects == [FetchRequest(id)]
  {
    page := new Page(host, map[]);
    OpenCard(host, page.State(), id, text);
    page.Activate(pathname, FetchBody(Some(text)));
    page.Edit(edit);
  }

  /** Saving right after opening card `id` and typing `edit`, with a usable token that the server accepts. */
  lemma OpenedCardSaved(d: Doc, id: string, edit: string, token: string)
    requires d.effects == [FetchRequest(id)] && |d.substitutes| == 1
    requires d.substitutes[0].shortLink == id && d.substitutes[0].text == edit && token != ""
    ensures var e := Saving(d, Some(token), true).effects;
            Requests(e) == [FetchRequest(id), PutRequest(id, edit, token)]
            && Occurrences(e, Reload) == 1 && Occurrences(e, Alert(SaveFailedAlert)) == 0
            && |e| > 0 && e[|e| - 1] == Reload
            && Requests(e[..|e| - 1]) == [FetchRequest(id), PutRequest(id, edit, token)]
            && forall k :: 0 <= k < |e| ==> !e[k].Alert?
  {
    var f, p := FetchRequest(id), PutRequest(id, edit, token);
    var e := Saving(d, Some(token), true).effects;
    SaveSucceedsReloadsOnce(d, Some(token));
    assert Requests(d.effects) == [f] && Occurrences(d.effects, Reload) == 0
           && Occurrences(d.effects, Alert(SaveFailedAlert)) == 0 by {
      Single(f, Reload);
      Single(f, Alert(SaveFailedAlert));
    }
    assert [f] + [p] == [f, p];
    assert e[0] == f by {
      SavingKeepsDocument(d, Some(token), true);
      assert e[0] == e[..|d.effects|][0];
    }
  }

  /** Saving right after opening card `id`, with no usable token. */
  lemma OpenedCardNotSaved(d: Doc, id: string, dsc: Option<string>)
    requires d.effects == [FetchRequest(id)] && |d.substitutes| == 1 && !HasUsableToken(dsc)
    ensures var v := Saving(d, dsc, true);
            Requests(v.effects) == [FetchRequest(id)] && v.substitutes == d.substitutes
            && Occurrences(v.effects, Alert(SaveFailedAlert)) == 1 && Occurrences(v.effects, Reload) == 0
  {
    var f := FetchRequest(id);
    SaveWithoutTokenSendsNothing(d, dsc, true);
    assert Requests(d.effects) == [f] && Occurrences(d.effects, Reload) == 0
           && Occurrences(d.effects, Alert(SaveFailedAlert)) == 0 by {
      Single(f, Reload);
      Single(f, Alert(SaveFailedAlert));
    }
  }

  /**
   * A session on a fresh page: open the card `id` whose description is
   * `text`, type `edit`, save with a cookie holding the usable token `token`,
   * and the server accepts. The fetch and then the edit go out, and the page
   * reloads once.
   */
  method OpenEditSave(host: HostView, pathname: string, text: string, edit: string, cookie: string, id: string, token: string)
    returns (effects: seq<Effect>)
    requires EditorMounted(host)
    requires GetCardShortLink(pathname) == Some(id)
    requires GetCsrfToken(cookie) == Some(token) && token != ""
    ensures Requests(effects) == [FetchRequest(id), PutRequest(id, edit, token)]
    ensures Occurrences(effects, Reload) == 1
    ensures Occurrences(effects, Alert(SaveFailedAlert)) == 0
    ensures |effects| > 0 && effects[|effects| - 1] == Reload
    ensures Requests(effects[..|effects| - 1]) == [FetchRequest(id), PutRequest(id, edit, token)]
    ensures forall k :: 0 <= k < |effects| ==> !effects[k].Alert?
  {
    var page := OpenAndEdit(host, pathname, text, edit, id);
    ghost var edited := page.State();
    page.Save(cookie, true);
    effects := page.effects;
    assert effects == Saving(edited, Some(token), true).effects;
    OpenedCardSaved(edited, id, edit, token);
  }

  /**
   * The same session with a cookie that holds no usable token: the save
   * sends nothing, alerts once, does not reload, and the substitute still
   * shows the edit.
   */
  method OpenEditSaveWithoutToken(host: HostView, pathname: string, text: string, edit: string, cookie: string, id: string)
    returns (effects: seq<Effect>, shown: string)
    requires EditorMounted(host)
    requires GetCardShortLink(pathname) == Some(id)
    requires !HasUsableToken(GetCsrfToken(cookie))
    ensures Requests(effects) == [FetchRequest(id)]
    ensures Occurrences(effects, Alert(SaveFailedAlert)) == 1 && Occurrences(effects, Reload) == 0
    ensures shown == edit
  {
    var page := OpenAndEdit(host, pathname, text, edit, id);
    ghost var edited := page.State();
    ghost var dsc := GetCsrfToken(cookie);
    page.Save(cookie, true);
    effects := page.effects;
    shown := page.substitutes[0].text;
    assert page.State() == Saving(edited, dsc, true);
    OpenedCardNotSaved(edited, id, dsc);
  }

  /** The session above for the card path `/c/abc123/my-card` and the cookie `a=1; dsc=TOKEN123`. */
  method ExampleSession(host: HostView) returns (effects: seq<Effect>)
    requires EditorMounted(host)
    ensures Requests(effects) == [FetchRequest("abc123"), PutRequest("abc123", "- [x] done", "TOKEN123")]
    ensures Occurrences(effects, Reload) == 1
    ensures |effects| > 0 && effects[|effects| - 1] == Reload
  {
    ShortLinkExample();
    CsrfTokenExample();
    effects := OpenEditSave(host, "/c/abc123/my-card", "- [ ] todo", "- [x] done", "a=1; dsc=TOKEN123", "abc123", "TOKEN123");
  }

  /**
   * Two triggers for the same editor: the second activation finds the guard
   * and does nothing, so one substitute and one fetch result.
   */
  method ActivateTwice(host: HostView, pathname: string, first: FetchReply, second: FetchReply)
    returns (mounted: nat, effects: seq<Effect>)
    requires EditorMounted(host) && GetCardShortLink(pathname).Some? && first.FetchBody?
    ensures mounted == 1
    ensures Requests(effects) == [FetchRequest(GetCardShortLink(pathname).value)]
  {
    var page := new Page(host, map[]);
    ActivationMounts(host, page.State(), GetCardShortLink(pathname).value, first.desc);
    page.Activate(pathname, first);
    ghost var once := page.State();
    assert |once.substitutes| == 1 && Requests(once.effects) == [FetchRequest(GetCardShortLink(pathname).value)];
    ActivationGuarded(host, once, GetCardShortLink(pathname), second);
    page.Activate(pathname, second);
    assert page.State() == once;
    mounted := |page.substitutes|;
    effects := page.effects;
  }

  /**
   * Open a card, cancel, and trigger again: the editor surface is hidden,
   * shown again with `''`, and the second activation mounts a new substitute.
   */
  method CancelThenReopen(host: HostView, pathname: string) returns (hidden: string, restored: string, mounted: nat)
    requires EditorMounted(host) && GetCardShortLink(pathname).Some?
    ensures hidden == "none" && restored == "" && mounted == 1
  {
    var page := new Page(host, map[]);
    var surface := host.akEditor.value;
    ActivationMounts(host, page.State(), GetCardShortLink(pathname).value, Some("- [ ] todo"));
    page.Activate(pathname, FetchBody(Some("- [ ] todo")));
    hidden := DisplayOf(page.display, surface);
    CancelRestores(page.State());
    page.Cancel();
    restored := DisplayOf(page.display, surface);
    page.Activate(pathname, FetchBody(Some("- [ ] todo")));
    mounted := |page.substitutes|;
  }
}
