/**
  The toast lifecycle of `showNotification`. A notification is attached to the
  page when shown, starts its exit animation (dismissing) on a close click or
  when the five-second timer finds it still attached, and is detached when the
  300 ms removal timer fires. Showing a new one detaches every attached
  notification at once.

  Timers are events: each `setTimeout` callback becomes an entry in the pending
  set (auto-close) or multiset (removal) and may fire at any later step, in any
  order. Durations are not modelled. Ids stand for the identity of the DOM
  element; a fresh one is drawn for every call.
 */
module Notifications {
  import Validation

  type Id = nat

  /** One toast: its text, the `type` it was shown with, the background the
      style sheet gets, and whether the exit animation has been started. */
  datatype Note = Note(message: string, kind: string, background: string, dismissing: bool)

  /** The page as far as notifications go: the attached toasts, the next fresh
      id, the five-second timers not yet fired and the removal timers not yet
      fired (a toast closed twice has two). */
  datatype Page = Page(
    attached: map<Id, Note>,
    nextId: Id,
    autoPending: set<Id>,
    removePending: multiset<Id>)

  datatype Event =
    | Show(message: string, kind: string)
    | CloseClick(id: Id)
    | AutoTimer(id: Id)
    | RemoveTimer(id: Id)

  const Init := Page(map[], 0, {}, multiset{})

  const InfoColor := "#2c3e50"

  /** The colour table of `showNotification`. */
  const Colors: map<string, string> :=
    map["success" := "#2c3e50", "error" := "#dc3545", "warning" := "#d4af37", "info" := InfoColor]

  /** `colors[type] || colors.info`: a type outside the table falls back to the
      info colour. */
  function Background(kind: string): (color: string)
    ensures kind in Colors ==> color == Colors[kind]
    ensures kind !in Colors ==> color == InfoColor
    ensures color in Colors.Values
  {
    assert Colors["info"] == InfoColor;
    if kind in Colors then Colors[kind] else InfoColor
  }

  lemma BackgroundExamples()
    ensures Background("error") == "#dc3545"
    ensures Background("warning") == "#d4af37"
    ensures Background("success") == Background("info") == Background("unknown")
  {
  }

  /** A rejected submission puts up a red error toast and an accepted one a
      success toast, replacing whatever was on the page. */
  lemma SubmitNoticeShown(p: Page, r: Validation.SubmitOutcome)
    ensures
      var q := Step(p, Show(Validation.SubmitNotice(r).0, Validation.SubmitNotice(r).1));
      && q.attached.Keys == {p.nextId}
      && (q.attached[p.nextId].background == "#dc3545" <==> r != Validation.Accepted)
  {
  }

  /** An event can happen: a close button can only be clicked while its toast
      is on the page, and a timer fires only if it was scheduled. */
  predicate Enabled(p: Page, e: Event) {
    match e
    case Show(_, _) => true
    case CloseClick(id) => id in p.attached
    case AutoTimer(id) => id in p.autoPending
    case RemoveTimer(id) => id in p.removePending
  }

  /** Starts the exit animation of an attached toast and schedules its removal. */
  function Dismiss(p: Page, id: Id): (q: Page)
    requires id in p.attached
    ensures q.attached.Keys == p.attached.Keys
    ensures q.attached[id].dismissing
    ensures id in q.removePending
  {
    p.(attached := p.attached[id := p.attached[id].(dismissing := true)],
       removePending := p.removePending + multiset{id})
  }

  /** One event. Only `Show` attaches a toast, and it attaches exactly the new
      one under a fresh id; every other event keeps or shrinks the attached set,
      a close click keeps it, and ids are never drawn twice. */
  function Step(p: Page, e: Event): (q: Page)
    requires Enabled(p, e)
    ensures q.nextId >= p.nextId
    ensures e.Show? ==> q.attached.Keys == {p.nextId} && q.nextId == p.nextId + 1
    ensures !e.Show? ==> q.attached.Keys <= p.attached.Keys && q.nextId == p.nextId
    ensures e.CloseClick? ==> q.attached.Keys == p.attached.Keys
  {
    match e
    case Show(message, kind) =>
      var id := p.nextId;
      Page(map[id := Note(message, kind, Background(kind), false)],
           id + 1, p.autoPending + {id}, p.removePending)
    case CloseClick(id) =>
      Dismiss(p, id)
    case AutoTimer(id) =>
      var fired := p.(autoPending := p.autoPending - {id});
      if id in p.attached then Dismiss(fired, id) else fired
    case RemoveTimer(id) =>
      p.(attached := p.attached - {id}, removePending := p.removePending - multiset{id})
  }

  // ---------------------------------------------------------------------
  // Per-event properties
  // ---------------------------------------------------------------------

  /** After `Show` exactly the new toast is attached, not yet dismissing,
      whatever was attached before, and its id is fresh. */
  lemma ShowReplacesAll(p: Page, message: string, kind: string)
    requires Inv(p)
    ensures
      var q := Step(p, Show(message, kind));
      && |q.attached| == 1
      && q.attached.Keys == {p.nextId}
      && p.nextId !in p.attached
      && q.attached[p.nextId] == Note(message, kind, Background(kind), false)
      && q.autoPending == p.autoPending + {p.nextId}
      && q.removePending == p.removePending
  {
    var q := Step(p, Show(message, kind));
    assert q.attached.Keys == {p.nextId};
  }

  /** A five-second timer that finds its toast detached changes nothing on the
      page. */
  lemma AutoTimerDetachedNoop(p: Page, id: Id)
    requires id in p.autoPending && id !in p.attached
    ensures Step(p, AutoTimer(id)).attached == p.attached
    ensures Step(p, AutoTimer(id)).removePending == p.removePending
    ensures Step(p, AutoTimer(id)).autoPending == p.autoPending - {id}
  {
  }

  /** A five-second timer that finds its toast attached starts the exit
      animation and schedules exactly one removal; it fires only once. */
  lemma AutoTimerAttachedDismisses(p: Page, id: Id)
    requires id in p.autoPending && id in p.attached
    ensures var q := Step(p, AutoTimer(id));
      && q.attached.Keys == p.attached.Keys
      && q.attached[id] == p.attached[id].(dismissing := true)
      && q.autoPending == p.autoPending - {id}
      && q.removePending == p.removePending + multiset{id}
  {
  }

  /** A removal timer detaches its own toast and no other. */
  lemma RemoveTimerOnlyOwn(p: Page, id: Id)
    requires id in p.removePending
    ensures var q := Step(p, RemoveTimer(id));
      && id !in q.attached
      && (forall other :: other != id ==> (other in q.attached <==> other in p.attached))
      && (forall other :: other in q.attached ==> q.attached[other] == p.attached[other])
      && q.removePending == p.removePending - multiset{id}
      && q.autoPending == p.autoPending
  {
  }

  /** Closing an attached toast keeps it on the page; it leaves only through
      its removal timer. */
  lemma CloseKeepsAttached(p: Page, id: Id)
    requires id in p.attached
    ensures var q := Step(p, CloseClick(id));
      && q.attached.Keys == p.attached.Keys
      && q.attached[id] == p.attached[id].(dismissing := true)
      && q.removePending == p.removePending + multiset{id}
      && q.autoPending == p.autoPending
  {
  }

  // ---------------------------------------------------------------------
  // Invariant
  // ---------------------------------------------------------------------

  /** Every id in use was drawn before; at most one toast is attached and it is
      the newest; every attached toast has a timer that will move it on: the
      five-second timer while it is shown, a removal timer once it is
      dismissing; and a removal timer is pending for an attached toast only
      once its exit animation has started. */
  ghost predicate Inv(p: Page) {
    && (forall id :: id in p.attached ==> id < p.nextId)
    && (forall id :: id in p.autoPending ==> id < p.nextId)
    && (forall id :: id in p.removePending ==> id < p.nextId)
    && (forall id :: id in p.attached ==> id == p.nextId - 1)
    && (forall id :: id in p.attached && !p.attached[id].dismissing ==> id in p.autoPending)
    && (forall id :: id in p.attached && p.attached[id].dismissing ==> id in p.removePending)
    && (forall id :: id in p.attached && id in p.removePending ==> p.attached[id].dismissing)
  }

  lemma InitInv()
    ensures Inv(Init)
  {
  }

  /** A page satisfying the invariant has at most one toast attached. */
  lemma InvAtMostOne(p: Page)
    requires Inv(p)
    ensures |p.attached| <= 1
  {
    if p.attached != map[] {
      var id :| id in p.attached;
      assert p.attached.Keys == {id};
      assert |p.attached| == |p.attached.Keys|;
    }
  }

  /** Every event keeps the invariant. */
  lemma StepInv(p: Page, e: Event)
    requires Inv(p) && Enabled(p, e)
    ensures Inv(Step(p, e))
  {
    var q := Step(p, e);
    match e
    case Show(_, _) =>
    case CloseClick(id) =>
    case AutoTimer(id) =>
      if id in p.attached {
        assert p.attached[id].dismissing ==> id in p.removePending;
      }
    case RemoveTimer(id) =>
      forall other | other in q.attached && q.attached[other].dismissing
        ensures other in q.removePending
      {
        assert other != id;
        assert other in p.removePending;
        assert q.removePending[other] == p.removePending[other];
      }
  }

  /** Apart from being replaced by a new toast, a toast leaves the page only
      after its exit animation has started: whatever event other than `Show`
      detaches it found it dismissing. */
  lemma RemovalOnlyAfterExit(p: Page, e: Event, id: Id)
    requires Inv(p) && Enabled(p, e) && !e.Show?
    requires id in p.attached && id !in Step(p, e).attached
    ensures p.attached[id].dismissing
  {
  }

  /** A sequence of events each enabled where it happens. */
  predicate IsRun(p: Page, events: seq<Event>)
    decreases |events|
  {
    events == [] || (Enabled(p, events[0]) && IsRun(Step(p, events[0]), events[1..]))
  }

  function Run(p: Page, events: seq<Event>): (q: Page)
    requires IsRun(p, events)
    decreases |events|
  {
    if events == [] then p else Run(Step(p, events[0]), events[1..])
  }

  /** The invariant holds after every run. */
  lemma {:induction false} RunInv(p: Page, events: seq<Event>)
    requires Inv(p) && IsRun(p, events)
    ensures Inv(Run(p, events))
    decreases |events|
  {
    if events != [] {
      StepInv(p, events[0]);
      RunInv(Step(p, events[0]), events[1..]);
    }
  }

  /** No sequence of shows, clicks and timers ever leaves two toasts on the page. */
  lemma AtMostOneAttached(events: seq<Event>)
    requires IsRun(Init, events)
    ensures |Run(Init, events).attached| <= 1
  {
    InitInv();
    RunInv(Init, events);
    InvAtMostOne(Run(Init, events));
  }

  /** The timers alone. */
  predicate TimersOnly(events: seq<Event>) {
    forall i :: 0 <= i < |events| ==> events[i].AutoTimer? || events[i].RemoveTimer?
  }

  /** Nothing stays on the page: from any reachable page, firing the pending
      timers of the attached toast (at most two timer events, no user action)
      detaches it. */
  lemma TimersClearPage(p: Page)
    requires Inv(p)
    ensures exists events ::
      && |events| <= 2 && TimersOnly(events)
      && IsRun(p, events) && Run(p, events).attached == map[]
  {
    if p.attached == map[] {
      assert TimersOnly([]) && IsRun(p, []) && Run(p, []).attached == map[];
    } else {
      var id :| id in p.attached;
      assert p.attached.Keys == {id};
      if p.attached[id].dismissing {
        RemovalClears(p, id);
        assert TimersOnly([RemoveTimer(id)]);
      } else {
        AutoThenRemovalClears(p, id);
        assert TimersOnly([AutoTimer(id), RemoveTimer(id)]);
      }
    }
  }

  /** The removal timer of the only attached toast empties the page. */
  lemma RemovalClears(p: Page, id: Id)
    requires id in p.removePending && p.attached.Keys == {id}
    ensures IsRun(p, [RemoveTimer(id)]) && Run(p, [RemoveTimer(id)]).attached == map[]
  {
    var q := Step(p, RemoveTimer(id));
    assert q.attached.Keys == {};
    assert [RemoveTimer(id)][1..] == [];
  }

  /** The five-second timer of the only attached toast, then its removal timer,
      empty the page. */
  lemma AutoThenRemovalClears(p: Page, id: Id)
    requires id in p.autoPending && p.attached.Keys == {id}
    ensures IsRun(p, [AutoTimer(id), RemoveTimer(id)])
    ensures Run(p, [AutoTimer(id), RemoveTimer(id)]).attached == map[]
  {
    var q := Step(p, AutoTimer(id));
    assert q.attached.Keys == {id} && id in q.removePending;
    RemovalClears(q, id);
    assert [AutoTimer(id), RemoveTimer(id)][1..] == [RemoveTimer(id)];
  }
}
