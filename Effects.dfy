/**
 * The observable effects of the content script, in the order it performs them:
 * the two kinds of request it sends to the card API, the page reload, the
 * blocking alert, diagnostics written to the console, and the delayed
 * activations the triggers schedule.
 */
module Effects {

  datatype Effect =
    | FetchRequest(shortLink: string)                      // GET /1/cards/{shortLink}?fields=desc
    | PutRequest(shortLink: string, desc: string, dsc: string) // PUT /1/cards/{shortLink} with body { desc, dsc }
    | Reload                                               // window.location.reload()
    | Alert(message: string)                               // alert(message)
    | ConsoleError(message: string)                        // console.error(message, ...)
    | ActivationScheduled(delayMs: nat)                    // setTimeout(replaceDescriptionEditor, delayMs)

  const NoCardIdMessage := "[Trello MD Editor] Could not determine card ID"
  const FetchErrorMessage := "[Trello MD Editor] Error fetching description:"
  const NoTokenMessage := "[Trello MD Editor] No CSRF token found"
  const SaveErrorMessage := "[Trello MD Editor] Error saving description:"
  const SaveFailedAlert := "Failed to save description. Please try again."

  /** A network request, as opposed to a local effect. */
  predicate IsRequest(e: Effect) {
    e.FetchRequest? || e.PutRequest?
  }

  /** The requests among `es`, in the order they were issued. */
  function Requests(es: seq<Effect>): (rs: seq<Effect>)
    ensures |rs| <= |es|
    ensures forall k :: 0 <= k < |rs| ==> IsRequest(rs[k])
  {
    if es == [] then []
    else if IsRequest(es[|es| - 1]) then Requests(es[..|es| - 1]) + [es[|es| - 1]]
    else Requests(es[..|es| - 1])
  }

  /** How many times `e` occurs in `es`. */
  function Occurrences(es: seq<Effect>, e: Effect): nat
  {
    if es == [] then 0
    else Occurrences(es[..|es| - 1], e) + (if es[|es| - 1] == e then 1 else 0)
  }

  /** The requests and occurrences of a single effect. */
  lemma Single(e: Effect, x: Effect)
    ensures Requests([e]) == if IsRequest(e) then [e] else []
    ensures Occurrences([e], x) == if e == x then 1 else 0
  {
    var one := [e];
    assert one[..|one| - 1] == [];
    assert Requests(one) == if IsRequest(e) then [] + [e] else [] by {
      assert Requests([]) == [];
    }
    assert [] + [e] == [e];
  }

  /** The requests and occurrences of two effects in a row. */
  lemma Pair(e: Effect, f: Effect, x: Effect)
    ensures Requests([e, f]) == Requests([e]) + Requests([f])
    ensures Occurrences([e, f], x) == Occurrences([e], x) + Occurrences([f], x)
  {
    assert [e, f] == [e] + [f];
    RequestsAppend([e], [f]);
    OccurrencesAppend([e], [f], x);
  }

  /** The requests of a concatenation are the requests of its halves, in order. */
  lemma {:induction false} RequestsAppend(a: seq<Effect>, b: seq<Effect>)
    ensures Requests(a + b) == Requests(a) + Requests(b)
    decreases |b|
  {
    if b == [] {
      assert a + b == a;
    } else {
      assert (a + b)[..|a + b| - 1] == a + b[..|b| - 1];
      RequestsAppend(a, b[..|b| - 1]);
    }
  }

  /** Occurrences add up over a concatenation. */
  lemma {:induction false} OccurrencesAppend(a: seq<Effect>, b: seq<Effect>, e: Effect)
    ensures Occurrences(a + b, e) == Occurrences(a, e) + Occurrences(b, e)
    decreases |b|
  {
    if b == [] {
      assert a + b == a;
    } else {
      assert (a + b)[..|a + b| - 1] == a + b[..|b| - 1];
      OccurrencesAppend(a, b[..|b| - 1], e);
    }
  }

  /** Requests and occurrences of two logs followed by one more effect. */
  lemma AppendOne(a: seq<Effect>, b: seq<Effect>, e: Effect, x: Effect)
    ensures Requests(a + b + [e]) == Requests(a) + Requests(b) + (if IsRequest(e) then [e] else [])
    ensures Occurrences(a + b + [e], x) == Occurrences(a, x) + Occurrences(b, x) + (if e == x then 1 else 0)
  {
    RequestsAppend(a + b, [e]);
    RequestsAppend(a, b);
    OccurrencesAppend(a + b, [e], x);
    OccurrencesAppend(a, b, x);
    Single(e, x);
  }
}
