/**
 * The activation triggers: the mutation observer's filter, the start-up
 * activation and the poll that watches the page address. Each decides only
 * whether an activation is scheduled, and with what delay; the scheduled
 * activation itself is `Controller.Page.Activate`.
 */
module Triggers {
  import opened Text
  import opened Effects
  import opened Parsers

  /** Delay of the activation scheduled for a mutation batch that adds an editor. */
  const MutationDelayMs: nat := 150

  /** Delay of the activation scheduled at start-up and after an address change. */
  const ActivationDelayMs: nat := 500

  /** The path marker of a card page. */
  const CardPathMarker: string := "/c/"

  /**
   * One added node of a mutation record: whether it is an element, and the
   * answers of its `querySelector('.ProseMirror')`, `classList.contains('ProseMirror')`
   * and `querySelector('.akEditor')`.
   */
  datatype AddedNode = AddedNode(isElement: bool, containsProseMirror: bool,
                                 isProseMirror: bool, containsAkEditor: bool)

  /** An element that is, or holds, the host's editor. */
  predicate HasEditorSignature(n: AddedNode) {
    n.isElement && (n.containsProseMirror || n.isProseMirror || n.containsAkEditor)
  }

  /** Some added node of some mutation record in the batch has the editor signature. */
  predicate BatchHasEditor(batch: seq<seq<AddedNode>>) {
    exists i, j :: 0 <= i < |batch| && 0 <= j < |batch[i]| && HasEditorSignature(batch[i][j])
  }

  /**
   * The observer callback: on a card page, a batch that adds an editor
   * schedules one activation, however many of its nodes match; any other
   * batch schedules nothing.
   */
  method OnMutations(pathname: string, batch: seq<seq<AddedNode>>) returns (scheduled: seq<Effect>)
    ensures scheduled == if Contains(pathname, CardPathMarker) && BatchHasEditor(batch)
                         then [ActivationScheduled(MutationDelayMs)] else []
  {
    scheduled := [];
    if !Contains(pathname, CardPathMarker) {
      return;
    }
    for i := 0 to |batch|
      invariant forall i', j :: 0 <= i' < i && 0 <= j < |batch[i']| ==> !HasEditorSignature(batch[i'][j])
    {
      var added := batch[i];
      for j := 0 to |added|
        invariant forall j' :: 0 <= j' < j ==> !HasEditorSignature(added[j'])
      {
        if HasEditorSignature(added[j]) {
          scheduled := [ActivationScheduled(MutationDelayMs)];
          return;
        }
      }
    }
  }

  /** Every page whose card id can be read passes the observer's page filter. */
  lemma CardIdOnlyOnCardPath(pathname: string)
    requires GetCardShortLink(pathname).Some?
    ensures Contains(pathname, CardPathMarker)
  {
    var i :| IsFirstLink(pathname, i) && IsMaximalRun(pathname, i + 3, GetCardShortLink(pathname).value);
    assert OccursAt(pathname, CardPathMarker, i);
  }

  /** The address poll: `lastUrl` and the check its interval runs. */
  class UrlPoll {
    var lastUrl: string

    /** `let lastUrl = window.location.href` at start-up. */
    constructor (href: string)
      ensures lastUrl == href
    {
      lastUrl := href;
    }

    /** One firing of the interval, seeing the address `href`. */
    method Tick(href: string) returns (scheduled: seq<Effect>)
      modifies this
      ensures lastUrl == href
      ensures scheduled == if href != old(lastUrl) then [ActivationScheduled(ActivationDelayMs)] else []
    {
      scheduled := [];
      if href != lastUrl {
        lastUrl := href;
        scheduled := [ActivationScheduled(ActivationDelayMs)];
      }
    }
  }

  /** Start-up: the poll starts at the current address and one activation is scheduled. */
  method Startup(href: string) returns (poll: UrlPoll, scheduled: seq<Effect>)
    ensures fresh(poll) && poll.lastUrl == href
    ensures scheduled == [ActivationScheduled(ActivationDelayMs)]
  {
    poll := new UrlPoll(href);
    scheduled := [ActivationScheduled(ActivationDelayMs)];
  }

  /** What the poll schedules over the addresses seen at its successive firings. */
  function PollEffects(lastUrl: string, hrefs: seq<string>): seq<Effect>
    decreases |hrefs|
  {
    if hrefs == [] then []
    else (if hrefs[0] != lastUrl then [ActivationScheduled(ActivationDelayMs)] else [])
         + PollEffects(hrefs[0], hrefs[1..])
  }

  /** One firing of the poll, then the rest. */
  lemma PollStep(lastUrl: string, hrefs: seq<string>, i: nat)
    requires i < |hrefs|
    ensures PollEffects(lastUrl, hrefs[i..])
            == (if hrefs[i] != lastUrl then [ActivationScheduled(ActivationDelayMs)] else [])
               + PollEffects(hrefs[i], hrefs[i + 1..])
  {
    assert hrefs[i..][0] == hrefs[i] && hrefs[i..][1..] == hrefs[i + 1..];
  }

  /** Runs the poll from start-up address `href` over the firings `hrefs`. */
  method RunPoll(href: string, hrefs: seq<string>) returns (scheduled: seq<Effect>)
    ensures scheduled == PollEffects(href, hrefs)
  {
    var poll := new UrlPoll(href);
    scheduled := [];
    for i := 0 to |hrefs|
      invariant poll.lastUrl == if i == 0 then href else hrefs[i - 1]
      invariant scheduled + PollEffects(poll.lastUrl, hrefs[i..]) == PollEffects(href, hrefs)
    {
      PollStep(poll.lastUrl, hrefs, i);
      ghost var rest := PollEffects(hrefs[i], hrefs[i + 1..]);
      var s := poll.Tick(hrefs[i]);
      assert scheduled + s + rest == scheduled + (s + rest);
      scheduled := scheduled + s;
    }
    assert hrefs[|hrefs|..] == [] && scheduled + [] == scheduled;
  }

  /** Each firing schedules at most one activation, always with the poll's delay. */
  lemma {:induction false} PollEffectsBounded(lastUrl: string, hrefs: seq<string>)
    ensures |PollEffects(lastUrl, hrefs)| <= |hrefs|
    ensures forall k :: 0 <= k < |PollEffects(lastUrl, hrefs)| ==>
              PollEffects(lastUrl, hrefs)[k] == ActivationScheduled(ActivationDelayMs)
    decreases |hrefs|
  {
    if hrefs != [] {
      PollEffectsBounded(hrefs[0], hrefs[1..]);
    }
  }

  /** While the address stays the same, the poll schedules nothing. */
  lemma {:induction false} PollQuietWhileUnchanged(lastUrl: string, hrefs: seq<string>)
    requires forall k :: 0 <= k < |hrefs| ==> hrefs[k] == lastUrl
    ensures PollEffects(lastUrl, hrefs) == []
    decreases |hrefs|
  {
    if hrefs != [] {
      PollQuietWhileUnchanged(lastUrl, hrefs[1..]);
    }
  }

  /** One navigation seen at any number of firings schedules exactly one activation. */
  lemma PollOnceAfterNavigation(lastUrl: string, href: string, firings: nat)
    requires href != lastUrl
    ensures PollEffects(lastUrl, seq(firings + 1, _ => href)) == [ActivationScheduled(ActivationDelayMs)]
  {
    var hrefs := seq(firings + 1, _ => href);
    PollQuietWhileUnchanged(href, hrefs[1..]);
  }
}
