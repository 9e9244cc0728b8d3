# Trello Markdown Editor: a model of the content script

The content script swaps Trello's rich-text card-description editor for a
plain markdown textarea. This project models the part of `content.js` whose
behaviour can be stated exactly, and proves properties of that model:

- **Parsers**: `getCardShortLink` reads the card id from the location's path.
  `getCsrfToken` reads the `dsc` anti-forgery token from `document.cookie`,
  a list of `name=value` entries separated by `;` (section 5.4 of RFC 6265).
- **Remote**: `fetchCardDescription` and `saveCardDescription`. The server's
  answers are inputs. Every request sent is recorded in an effect log.
- **Controller**: `replaceDescriptionEditor` with its save and cancel
  callbacks. It is written as the class `Page`, whose fields are:
  - the inline `display` value of each host element;
  - the mounted substitute editors (the `data-md-editor-replaced` marker);
  - the effect log.

  Each `Page` method is proved against a specification function on a `Doc`
  value (`Activation`, `Editing`, `Saving`, `Cancellation`). The lemmas
  state what the controller promises about those functions.
- **Triggers**: the mutation-observer filter (nested loops with an early
  return), the start-up activation, and the `lastUrl` poll (the class
  `UrlPoll`).

Effects the script has outside the document are entries of `Effects.Effect`:

- the GET and PUT requests;
- `window.location.reload()`;
- `alert`;
- `console.error`;
- activations scheduled with `setTimeout`.

The host page's answers to DOM queries form the value `Controller.HostView`:
`querySelector`, `closest`, `parentElement`, `querySelectorAll('button')`,
and the toolbar lookup. Elements are abstract handles (`Node`).

Files, in dependency order: `Wrappers.dfy` (Option), `Text.dfy` (the
JavaScript string operations used), `Effects.dfy`, `Parsers.dfy`,
`Remote.dfy`, `Controller.dfy`, `Triggers.dfy`.

The cancel callback does not give the host elements back their previous
inline `display` (see "## Findings"). `Page.Cancel` and `Cancellation` model
it as written; `RestoringCancellation` is the intended cancel, with its
property proved beside it.

## Model

| member | source | states |
|---|---|---|
| Parsers.GetCardShortLink | content.js:10-13 | A card id exists exactly when some `/c/` is followed by an alphanumeric. It is then the maximal `[a-zA-Z0-9]` run after the leftmost such `/c/`. |
| Parsers.FirstLinkFrom | content.js:11 | The regular expression's leftmost match at or after a position: it matches there and nowhere between. None means no match at any later position. |
| Parsers.AlnumPrefix | content.js:11 | The greedy `[a-zA-Z0-9]+`: a prefix of the input, all alphanumeric, not followed by an alphanumeric. |
| Parsers.NoMarkerNoShortLink | content.js:10-13 | A path without `/c/` gives no card id. |
| Parsers.ShortLinkAtStart | content.js:10-13 | `/c/` followed by an alphanumeric run and then a non-alphanumeric gives exactly that run. |
| Parsers.ShortLinkExample | content.js:10-13 | `/c/abc123/my-card` gives `abc123`. |
| Parsers.FindDscEntry | content.js:17 | `find`: the first entry whose trimmed text starts with `dsc=`, or none when no entry does. |
| Parsers.DscEntryIff | content.js:17 | An entry matches exactly when, after its leading whitespace, it starts with `dsc=`. Trailing whitespace never matters. |
| Parsers.GetCsrfToken | content.js:16-19 | No token exactly when no `;`-entry matches. A token never contains `;` or `=`. |
| Parsers.CsrfTokenIsDscValue | content.js:16-19 | The token is the text of the first matching entry that follows `dsc=`, up to the next `=` or the entry's end. |
| Parsers.DscEntryValue | content.js:18 | `split('=')[1]` of a matching entry exists and is its `dsc` value. |
| Parsers.CsrfTokenOfDscEntry | content.js:16-19 | An entry made of whitespace, `dsc=` and a value without `;` or `=` yields that value. |
| Parsers.CsrfTokenSkipsEntry | content.js:17 | `find` passes over an entry that does not match. |
| Parsers.CsrfTokenFirstEntryWins | content.js:17 | The first matching entry wins over everything after it. |
| Parsers.CsrfTokenExample | content.js:16-19 | `a=1; dsc=TOKEN123` gives `TOKEN123`. |
| Parsers.CsrfTokenNameMustMatch | content.js:17 | A cookie named `dscx` is not the token. |
| Remote.FetchCardDescription | content.js:22-32 | One GET request for the card. The text is missing exactly when the fetch fails, and a failure logs one error. A missing or empty `desc` gives `''`. It never reloads or alerts. |
| Remote.HasUsableToken | content.js:38 | `!dsc` is false only for a present, non-empty token. SaveCardDescription's contract states what follows on each side. |
| Remote.PutDescription | content.js:42-54 | One PUT carrying exactly the text and the token. It succeeds exactly when the server accepts, and a rejection logs one error. No entry of its log is a reload or an alert of any kind. |
| Remote.SaveCardDescription | content.js:35-55 | With a missing or empty token: failure, no request, one error logged. Otherwise exactly one PUT with the given text and token, succeeding exactly when the server accepts. Either way no entry of its log is a reload or an alert; those are left to the caller. |
| Controller.ButtonScope | content.js:139 | The buttons searched: those of `main` when the editor is inside one, else the document's. SaveButtonGroupIsLastSave states the choice made in it. |
| Controller.SaveButtonGroup | content.js:145 | `saveBtn?.closest('div')`. SaveButtonGroupIsLastSave and NoSaveButtonNoGroup state it is the last Save button's `div`, or none without one. |
| Controller.LastSaveIndex | content.js:139-145 | The index found, if any, is in range and is a button whose trimmed text is `Save`. |
| Controller.LastSaveIndexIsLast | content.js:140-144 | Every Save button is at or before the one found, so the last one wins. None is found only when there is none. |
| Controller.FindSaveButton | content.js:140-144 | The loop that overwrites `saveBtn` computes the last Save button's index. |
| Controller.SaveButtonGroupIsLastSave | content.js:139-145 | The hidden group is the `div` of the last Save button. The search covers `main` when the editor is inside one, otherwise the whole document. |
| Controller.NoSaveButtonNoGroup | content.js:145 | Without a Save button in scope there is no group to hide. |
| Controller.Activation | content.js:99-177 | One uninterrupted activation. ActivationGuarded, ActivationWithoutEditor, ActivationWithoutCardId and ActivationFetchFails state its abort paths. ActivationMounts and ActivationAtMostOne state its success path. |
| Controller.Mount | content.js:139-153 | The success tail of an activation. MountHidesHost states that it hides exactly the three host elements, appends the substitute and logs nothing. |
| Controller.Editing | content.js:65 | The textarea's text becomes what was typed. EditThenSaveSendsEdit states that the next save carries it. |
| Controller.Saving | content.js:158-164 | The save callback. SavingEffects, SaveSucceedsReloadsOnce, SaveFails, SaveWithoutTokenSendsNothing and SavingKeepsDocument state its effects. |
| Controller.Cancellation | content.js:166-172 | The cancel callback as written. CancelRestores, MountThenCancelRestoresExactly, CancelDoesNotRestoreOwnDisplay and CancelRearms state its effects. |
| Controller.RestoringCancellation | content.js:166-172 | The intended cancel: the hidden elements get back the display they had before the activation. RestoringCancellationEffect and MountThenRestoringCancelRestores state its effects. |
| Controller.ActivationGuarded | content.js:100-103 | A document that already holds a substitute is left exactly as it is: no fetch, nothing hidden. |
| Controller.ActivationIdempotent | content.js:100-103 | After a successful activation, a further activation changes nothing, whatever the address and the server's reply. |
| Controller.ActivationAtMostOne | content.js:99-177 | Activation keeps at most one substitute. It leaves exactly one exactly when there was one already, or when the editor, a card id and a fetched text were all present. |
| Controller.ActivationWithoutEditor | content.js:106-121 | A missing editor root, `.akEditor` ancestor or parent leaves the document and the log unchanged. |
| Controller.ActivationWithoutCardId | content.js:126-130 | Without a card id the log gains exactly one console error and nothing else: no request, reload or alert. Nothing is hidden or mounted. |
| Controller.ActivationFetchFails | content.js:132-136 | A failed fetch: the log gains exactly the GET and one console error, with no reload or alert. Nothing is hidden or mounted. |
| Controller.MountHidesHost | content.js:150-153 | Mounting sets `display` to `'none'` on exactly the toolbar, the editor surface and the Save group. It appends the substitute and logs nothing. |
| Controller.ActivationMounts | content.js:139-176 | A successful activation adds exactly the GET to the log and hides exactly the three host elements. It mounts one substitute holding the fetched text, inserted into the surface's parent before the surface. |
| Controller.EmptyDescriptionProceeds | content.js:27 | A missing or empty description still mounts the substitute, showing `''`. |
| Controller.CancelRestores | content.js:166-172 | Cancel removes the substitute and sets exactly the three hidden elements' display to `''`. The log is unchanged. |
| Controller.MountThenCancelRestoresExactly | content.js:150-172 | When the hidden elements had no inline display before, activate-then-cancel gives back every display value. |
| Controller.CancelDoesNotRestoreOwnDisplay | content.js:169 | A toolbar inline display the host had set (not `''`) is `''` after activate-then-cancel. |
| Controller.RestoringCancellationEffect | content.js:166-172 | The intended cancel removes the substitute, leaves the log alone, gives the three hidden elements their display from the earlier map and changes no other element. |
| Controller.MountThenRestoringCancelRestores | content.js:150-172 | For every document and every host, activate-then-intended-cancel gives back every element's display value and leaves no substitute. |
| Controller.CancelRearms | content.js:101 | After cancel the guard is gone, and a new activation mounts a substitute again. |
| Controller.SavingKeepsDocument | content.js:158-164 | Saving changes neither the display values nor the substitute. It only appends effects. |
| Controller.SavingEffects | content.js:158-164 | A save appends the client's effects in order, then exactly one more entry, the last: a reload on success or the failure alert otherwise. Request and reload/alert counts follow. |
| Controller.SaveWithoutTokenSendsNothing | content.js:37-41 | Without a usable token: no request, one alert, no reload, and the substitute keeps its text. |
| Controller.SaveSucceedsReloadsOnce | content.js:159-161 | A successful save sends one PUT with the substitute's card and text and reloads exactly once. The reload is the last entry, after the PUT, and no alert of any kind is added. |
| Controller.SaveFails | content.js:162-164 | A failed save alerts once, as its last entry, adds no reload of any kind, and keeps the substitute with its edited text. |
| Controller.EditThenSaveSendsEdit | content.js:74 | What is saved is the text last typed, for the card the substitute was built for. |
| Controller.Page.constructor | content.js:4-7 | A freshly loaded page holds no substitute and has logged nothing. |
| Controller.Page.Activate | content.js:99-177 | The new page state is `Activation` of the old one, for the card id read off the path. The at-most-one invariant is kept. |
| Controller.Page.ActivateFor | content.js:100-136 | For a card id already read, the new page state is `Activation` of the old one. The guard, the missing-element checks and the fetch run in order. The at-most-one invariant is kept. |
| Controller.Page.MountSubstitute | content.js:139-153 | Only on a page without a substitute, as the guard ensures. Runs the `saveBtn` loop, then hides the toolbar, the editor surface and the Save group, and inserts the substitute. The new state is `Mount` of the old one, holding exactly one substitute. |
| Controller.Page.Edit | content.js:63-74 | Typing replaces the substitute's text, as `Editing` states. |
| Controller.Page.Save | content.js:158-164 | The new state is `Saving` of the old one, with the token the cookie yields. |
| Controller.Page.Cancel | content.js:166-172 | The new state is `Cancellation` of the old one, and no substitute remains. |
| Controller.OpenCard | content.js:126-176 | On a fresh page, opening a card mounts one substitute for that card with its text, after exactly one fetch. |
| Controller.OpenedCardSaved | content.js:158-161 | After opening and editing, a save with a usable token that the server accepts adds the PUT and exactly one reload. The reload comes last, after the fetch and then the PUT, and the log holds no alert at all. |
| Controller.OpenedCardNotSaved | content.js:37-41 | After opening and editing, a save without a usable token sends only the fetch, alerts once, and keeps the substitute. |
| Controller.OpenEditSave | content.js:99-177 | Open, edit, save with a usable token: requests are exactly the fetch and then the PUT of the edit with that token. Exactly one reload, as the last entry after both requests, and no alert of any kind. |
| Controller.OpenEditSaveWithoutToken | content.js:35-41 | The same session without a usable token: only the fetch is sent, one alert, no reload, and the edit stays on screen. |
| Controller.ExampleSession | content.js:10-19 | For `/c/abc123/my-card` and `a=1; dsc=TOKEN123`, the requests are the fetch of `abc123` and the PUT of the edit with `TOKEN123`, and the page reloads exactly once, as the last effect. |
| Controller.ActivateTwice | content.js:100-103 | Two triggers for the same editor give one substitute and one fetch. |
| Controller.CancelThenReopen | content.js:150-176 | The editor surface goes from `'none'` to `''` on cancel, and a new trigger mounts a substitute again. |
| Triggers.OnMutations | content.js:181-200 | Exactly one activation with delay 150 is scheduled when the path contains `/c/` and some added element has the editor signature. Otherwise none is scheduled. |
| Triggers.CardIdOnlyOnCardPath | content.js:183 | Every path with a readable card id passes the observer's `/c/` filter. |
| Triggers.UrlPoll.constructor | content.js:219 | `lastUrl` starts at the address seen at start-up. |
| Triggers.UrlPoll.Tick | content.js:220-224 | A tick sets `lastUrl` to the current address. It schedules one activation with delay 500 exactly when the address changed. |
| Triggers.Startup | content.js:207-219 | Start-up schedules one activation with delay 500 (content.js:207-208), and the poll begins at the current address (content.js:219). |
| Triggers.PollEffects | content.js:220-224 | What successive firings schedule. PollStep, PollEffectsBounded, PollQuietWhileUnchanged and PollOnceAfterNavigation state its properties. |
| Triggers.PollStep | content.js:221-223 | One firing schedules an activation exactly when the address differs from the last one seen, then the poll continues from that address. |
| Triggers.RunPoll | content.js:219-225 | Running the poll over successive addresses schedules what `PollEffects` gives. |
| Triggers.PollEffectsBounded | content.js:220-225 | At most one activation per tick, always with delay 500. |
| Triggers.PollQuietWhileUnchanged | content.js:221 | Ticks on an unchanged address schedule nothing. |
| Triggers.PollOnceAfterNavigation | content.js:221-223 | One navigation, however many ticks observe it, schedules exactly one activation. |

## Left out

- DOM details:
  - element lookup (`querySelector`, `closest`, `parentElement`, `classList`);
  - node insertion and removal;
  - CSS.

  These are browser calls. Their answers are the `HostView`, and the substitute is a record.
- `createMarkdownEditor` (content.js:58-96) is not modelled beyond three facts: the marker, the initial text, and saving the current text. The textarea, buttons and hint label are not modelled. Neither is the focus timer (content.js:93).
- `fetch`, `response.json()`, `JSON.stringify` and the endpoints: network and foreign library calls. The GET's outcome is a `FetchReply` input, the PUT's acceptance a boolean input, and requests are log entries.
- `alert`, `window.location.reload` and `console.error` are effect log entries only. The error object passed to `console.error` is not recorded.
- `setTimeout` and `setInterval` timing. A scheduled activation is a log entry with its delay. The scheduled `replaceDescriptionEditor` is `Page.Activate`, which is not called from the trigger model.
- `observeCardDialog`'s `observer.observe` registration and the `DOMContentLoaded` wait (content.js:202-216): event wiring with no logic beyond what `Startup` states.
- The re-entrancy race: the guard (content.js:101) is checked before the awaited fetch (content.js:133), so two in-flight activations could both pass it. This is concurrency: each activation is modelled as atomic, so `ActivationAtMostOne` holds only under that assumption.
- Controller.Page.Save and Controller.Saving: a save is modelled as atomic. The source's save callback is `async` (content.js:158-159), and a Cancel click or a second Save click while the PUT is pending is not modelled. In the source, a Cancel followed by a rejected PUT removes the substitute before the alert, so the edit is lost. A Cancel followed by an accepted PUT reloads after the host editor was restored. A double click sends two PUTs. SaveFails, SaveWithoutTokenSendsNothing, SaveSucceedsReloadsOnce and the session scenarios hold only under the atomic-save assumption.
- The host re-rendering or removing its own elements between activations: the host view is fixed per page. In the model only `Cancel` clears the guard. In the source, the host closing the card dialog also removes the substitute and its marker, which re-arms the guard (content.js:101, 176); the poll (content.js:219-225) exists to reactivate after that.
- The session scenarios (`OpenEditSave` and the others) take the card id and the token as already parsed values. A precondition ties them to the path and the cookie.

## Findings

| source | as written | input that shows it | evidently intended | confidence | as-written member | corrected member |
|---|---|---|---|---|---|---|
| content.js:169-171 | Cancel sets the inline `display` of the toolbar, the editor surface and the Save group to `''` unconditionally. | A toolbar whose inline display was `flex` before the activation: after activate-then-cancel it is `''`. | Each hidden element gets back the inline display it had before the activation. | not executed; follows from the code as written | Controller.CancelDoesNotRestoreOwnDisplay (about Controller.Cancellation) | Controller.MountThenRestoringCancelRestores (about Controller.RestoringCancellation) |

`MountThenCancelRestoresExactly` shows that the code as written does restore
exactly when the host had set no inline display on the hidden elements
before the activation. `Page.Cancel` keeps the code's behaviour.
