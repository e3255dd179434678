/** The dashboard's refresh controller: overlapping refreshes, a timer and disposal. */
module Dashboard {
  import opened Options

  /** What the page shows. Clock readings are inputs. */
  datatype View = Connecting(at: int) | Offline(message: string, at: int) | Fetched(snapshot: int)

  datatype Status = Loading | Success | Error

  datatype UiState = UiState(status: Status, data: View, errorMessage: Option<string>, updatedAt: Option<int>)

  /** The controller and its surroundings: the timer, the refreshes that wait for an answer, and how
      often listeners were notified. */
  datatype Model = Model(
    ui: UiState, started: bool, disposed: bool, timerLive: bool, timersArmed: nat,
    inFlight: nat, menu: string, notified: nat)

  /** A call into the controller, or an answer to a refresh that was begun earlier. */
  datatype Event =
    | Start
    | Refresh
    | Succeed(data: View, now: int)
    | Fail(message: string, offlineAt: int, now: int)
    | SelectMenu(menu: string)
    | Dispose

  const DASHBOARD_MENU := "dashboard"

  function Initial(openedAt: int): Model {
    Model(UiState(Loading, Connecting(openedAt), None, None), false, false, false, 0, 0, DASHBOARD_MENU, 0)
  }

  // ---------- one step ----------

  function SetUi(m: Model, ui: UiState): Model {
    if m.disposed then m else m.(ui := ui, notified := m.notified + 1)
  }

  /** A refresh up to the point where it waits for the repository. */
  function Begin(m: Model): Model {
    if m.disposed then m
    else
      var shown := if m.ui.status.Success? then m
                   else SetUi(m, UiState(Loading, m.ui.data, None, m.ui.updatedAt));
      shown.(inFlight := shown.inFlight + 1)
  }

  function Answered(m: Model): Model {
    m.(inFlight := if m.inFlight > 0 then m.inFlight - 1 else 0)
  }

  function Step(m: Model, e: Event): Model {
    match e
    case Start =>
      if m.started then m
      else Begin(m.(started := true)).(timerLive := true, timersArmed := m.timersArmed + 1)
    case Refresh => Begin(m)
    case Succeed(data, now) => SetUi(Answered(m), UiState(Success, data, None, Some(now)))
    case Fail(message, offlineAt, now) =>
      var fallback := if m.ui.status.Success? then m.ui.data else Offline(message, offlineAt);
      SetUi(Answered(m), UiState(Error, fallback, Some(message), Some(now)))
    case SelectMenu(menu) =>
      if m.menu == menu || m.disposed then m else m.(menu := menu, notified := m.notified + 1)
    case Dispose => m.(disposed := true, timerLive := false)
  }

  function Run(openedAt: int, es: seq<Event>): Model {
    if es == [] then Initial(openedAt)
    else Step(Run(openedAt, es[..|es| - 1]), es[|es| - 1])
  }

  // ---------- the controller ----------

  class DashboardController {
    var state: UiState
    var refreshTimer: bool
    var disposed: bool
    var started: bool
    var activeMenuId: string
    ghost var timersArmed: nat
    ghost var inFlight: nat
    ghost var notified: nat
    ghost var openedAt: int
    ghost var history: seq<Event>

    ghost function Current(): Model
      reads this
    {
      Model(state, started, disposed, refreshTimer, timersArmed, inFlight, activeMenuId, notified)
    }

    /** The fields are what the history of calls and answers makes of a new controller. */
    ghost predicate Valid()
      reads this
    {
      Current() == Run(openedAt, history)
    }

    /** `e` has just happened, and its effect is the one of `Step`. */
    twostate predicate Did(e: Event)
      reads this
    {
      && Valid()
      && openedAt == old(openedAt) && history == old(history) + [e]
      && Current() == Step(old(Current()), e)
    }

    constructor (now: int)
      ensures Valid() && history == [] && openedAt == now
    {
      state := UiState(Loading, Connecting(now), None, None);
      refreshTimer, disposed, started, activeMenuId := false, false, false, DASHBOARD_MENU;
      timersArmed, inFlight, notified, openedAt, history := 0, 0, 0, now, [];
    }

    ghost method Record(e: Event)
      requires Current() == Step(Run(openedAt, history), e)
      modifies `history
      ensures Valid() && history == old(history) + [e]
    {
      history := history + [e];
      assert history[..|history| - 1] == old(history);
    }

    method NotifyListeners()
      modifies `notified
      ensures notified == old(notified) + 1
    {
      notified := notified + 1;
    }

    method SetState(nextState: UiState)
      modifies `state, `notified
      ensures Current() == SetUi(old(Current()), nextState)
    {
      if disposed {
        return;
      }
      state := nextState;
      NotifyListeners();
    }

    method BeginRefresh()
      modifies `state, `notified, `inFlight
      ensures Current() == Begin(old(Current()))
    {
      if disposed {
        return;
      }
      if !state.status.Success? {
        SetState(UiState(Loading, state.data, None, state.updatedAt));
      }
      inFlight := inFlight + 1;
    }

    method StartController()
      requires Valid()
      modifies this
      ensures Did(Start)
    {
      if !started {
        started := true;
        BeginRefresh();
        refreshTimer := true;
        timersArmed := timersArmed + 1;
      }
      Record(Start);
    }

    method RefreshNow()
      requires Valid()
      modifies this
      ensures Did(Refresh)
    {
      BeginRefresh();
      Record(Refresh);
    }

    method OnFetched(data: View, now: int)
      requires Valid() && inFlight > 0
      modifies this
      ensures Did(Succeed(data, now))
    {
      inFlight := inFlight - 1;
      SetState(UiState(Success, data, None, Some(now)));
      Record(Succeed(data, now));
    }

    method OnError(message: string, offlineAt: int, now: int)
      requires Valid() && inFlight > 0
      modifies this
      ensures Did(Fail(message, offlineAt, now))
    {
      inFlight := inFlight - 1;
      var fallback := if state.status.Success? then state.data else Offline(message, offlineAt);
      SetState(UiState(Error, fallback, Some(message), Some(now)));
      Record(Fail(message, offlineAt, now));
    }

    method Select(menuId: string)
      requires Valid()
      modifies this
      ensures Did(SelectMenu(menuId))
    {
      if activeMenuId != menuId && !disposed {
        activeMenuId := menuId;
        NotifyListeners();
      }
      Record(SelectMenu(menuId));
    }

    method Close()
      requires Valid()
      modifies this
      ensures Did(Dispose)
    {
      disposed := true;
      refreshTimer := false;
      Record(Dispose);
    }
  }

  // ---------- what is shown, from the history alone ----------

  datatype Failure = Failure(message: string, offlineAt: int)

  /** What counts in a history: the last success, the failures since, the latest failure, the time of
      the latest answer, whether a refresh has begun since then, and whether `start` was called. */
  datatype Tally = Tally(
    success: Option<View>, failures: nat, latest: Failure, answeredAt: Option<int>, begun: bool, started: bool)

  function Count(t: Tally, e: Event): Tally {
    match e
    case Start => t.(begun := t.begun || !t.started, started := true)
    case Refresh => t.(begun := true)
    case Succeed(data, now) => Tally(Some(data), 0, t.latest, Some(now), false, t.started)
    case Fail(message, offlineAt, now) =>
      Tally(t.success, t.failures + 1, Failure(message, offlineAt), Some(now), false, t.started)
    case _ => t
  }

  function Tallied(es: seq<Event>): Tally {
    if es == [] then Tally(None, 0, Failure("", 0), None, false, false)
    else Count(Tallied(es[..|es| - 1]), es[|es| - 1])
  }

  /** The last fetched data survives one failure; from the second on, or before any data, the offline
      view of the latest failure is shown. */
  function Shown(openedAt: int, t: Tally): View {
    if t.success.Some? && t.failures <= 1 then t.success.value
    else if t.failures == 0 then Connecting(openedAt)
    else Offline(t.latest.message, t.latest.offlineAt)
  }

  /** A success stands until the next answer; a failure until the next refresh begins. */
  function ShownStatus(t: Tally): Status {
    if t.success.Some? && t.failures == 0 then Success
    else if t.failures > 0 && !t.begun then Error
    else Loading
  }

  function ShownUi(openedAt: int, t: Tally): UiState {
    UiState(
      ShownStatus(t), Shown(openedAt, t),
      if ShownStatus(t).Error? then Some(t.latest.message) else None, t.answeredAt)
  }

  predicate Agrees(openedAt: int, m: Model, t: Tally) {
    !m.disposed && m.started == t.started && m.ui == ShownUi(openedAt, t)
  }

  lemma StepAgrees(openedAt: int, m: Model, t: Tally, e: Event)
    requires Agrees(openedAt, m, t) && e != Dispose
    ensures Agrees(openedAt, Step(m, e), Count(t, e))
  {
  }

  lemma NothingAnswered(openedAt: int)
    ensures Agrees(openedAt, Run(openedAt, []), Tallied([]))
  {
  }

  /** For every interleaving of refreshes and answers before disposal, the page (status, data, error
      message and time) is decided by the answers and by whether a refresh has begun since the last. */
  lemma {:induction false} HistoryDecidesView(openedAt: int, es: seq<Event>)
    requires Dispose !in es
    ensures Run(openedAt, es).ui == ShownUi(openedAt, Tallied(es))
    ensures Agrees(openedAt, Run(openedAt, es), Tallied(es))
  {
    hide Step, Count, ShownUi;
    if es == [] {
      NothingAnswered(openedAt);
    } else {
      assert forall e :: e in es[..|es| - 1] ==> e in es;
      assert es[|es| - 1] in es;
      HistoryDecidesView(openedAt, es[..|es| - 1]);
      StepAgrees(openedAt, Run(openedAt, es[..|es| - 1]), Tallied(es[..|es| - 1]), es[|es| - 1]);
    }
  }

  /** Every change of the page or the menu is notified, once. */
  lemma ChangesAreNotified(m: Model, e: Event)
    ensures m.notified <= Step(m, e).notified <= m.notified + 1
    ensures Step(m, e).ui != m.ui || Step(m, e).menu != m.menu ==> Step(m, e).notified == m.notified + 1
  {
  }

  // ---------- the menu, the notifications and the refreshes under way ----------

  /** The history before the first disposal. */
  function Live(es: seq<Event>): (live: seq<Event>)
    ensures live <= es && Dispose !in live
    ensures |live| < |es| ==> es[|live|] == Dispose
  {
    if es == [] || es[0] == Dispose then [] else [es[0]] + Live(es[1..])
  }

  lemma {:induction false} LiveSnoc(es: seq<Event>, e: Event)
    ensures Live(es + [e]) == if Dispose in es || e == Dispose then Live(es) else es + [e]
    ensures Dispose !in es ==> Live(es) == es
    decreases |es|
  {
    if es != [] {
      assert (es + [e])[0] == es[0] && (es + [e])[1..] == es[1..] + [e];
      LiveSnoc(es[1..], e);
      assert es == [es[0]] + es[1..];
    }
  }

  /** The last menu chosen. */
  function Chosen(es: seq<Event>): string {
    if es == [] then "dashboard"
    else if es[|es| - 1].SelectMenu? then es[|es| - 1].menu
    else Chosen(es[..|es| - 1])
  }

  /** The controller is disposed exactly once `dispose` was called, and its menu is the last one chosen
      before, or the dashboard. */
  lemma {:induction false} MenuIsLastChosen(openedAt: int, es: seq<Event>)
    ensures Run(openedAt, es).disposed <==> Dispose in es
    ensures Run(openedAt, es).menu == Chosen(Live(es))
  {
    if es != [] {
      var before, e := es[..|es| - 1], es[|es| - 1];
      MenuIsLastChosen(openedAt, before);
      assert es == before + [e];
      LiveSnoc(before, e);
      MenuStep(Run(openedAt, before), e);
    }
  }

  lemma MenuStep(m: Model, e: Event)
    ensures Step(m, e).disposed <==> m.disposed || e == Dispose
    ensures Step(m, e).menu == if e.SelectMenu? && !m.disposed then e.menu else m.menu
  {
  }

  /** Who is notified: nobody after disposal, and before it, once, every answer, every choice of another
      menu, and every refresh that begins while no fetched data is current. */
  lemma NotifiesExactly(m: Model, e: Event)
    ensures var announced :=
      && !m.disposed
      && (e.Succeed? || e.Fail?
          || (e.SelectMenu? && e.menu != m.menu)
          || ((e.Refresh? || (e.Start? && !m.started)) && !m.ui.status.Success?));
      Step(m, e).notified == m.notified + if announced then 1 else 0
  {
  }

  /** How many refreshes a history begins: the first start and every other refresh before disposal. */
  function Begun(es: seq<Event>): nat {
    if es == [] then 0
    else
      var before, e := es[..|es| - 1], es[|es| - 1];
      Begun(before)
      + if Dispose !in before && (e == Refresh || (e == Start && Start !in before)) then 1 else 0
  }

  function Answers(es: seq<Event>): nat {
    if es == [] then 0 else Answers(es[..|es| - 1]) + if es[|es| - 1].Succeed? || es[|es| - 1].Fail? then 1 else 0
  }

  /** As long as no answer comes without its refresh, the refreshes under way are those begun and not
      yet answered, after disposal too. */
  lemma {:induction false} UnderWay(openedAt: int, es: seq<Event>)
    requires forall k: nat :: k <= |es| ==> Answers(es[..k]) <= Begun(es[..k])
    ensures Run(openedAt, es).inFlight == Begun(es) - Answers(es)
  {
    if es != [] {
      var before, e := es[..|es| - 1], es[|es| - 1];
      forall k: nat | k <= |before|
        ensures Answers(before[..k]) <= Begun(before[..k])
      {
        assert before[..k] == es[..k];
      }
      UnderWay(openedAt, before);
      assert es[..|es|] == es;
      MenuIsLastChosen(openedAt, before);
      AtMostOneTimer(openedAt, before);
      UnderWayStep(Run(openedAt, before), e);
    }
  }

  lemma UnderWayStep(m: Model, e: Event)
    ensures !(e.Succeed? || e.Fail?)
        ==> Step(m, e).inFlight
            == m.inFlight + if !m.disposed && (e == Refresh || (e == Start && !m.started)) then 1 else 0
    ensures (e.Succeed? || e.Fail?) && m.inFlight > 0 ==> Step(m, e).inFlight == m.inFlight - 1
  {
  }

  predicate MessageMatchesStatus(m: Model) {
    m.ui.errorMessage.Some? <==> m.ui.status.Error?
  }

  lemma StepKeepsMessage(m: Model, e: Event)
    requires MessageMatchesStatus(m)
    ensures MessageMatchesStatus(Step(m, e))
  {
  }

  /** In every reachable state an error message is set exactly in the error status. */
  lemma {:induction false} ErrorMessageIff(openedAt: int, es: seq<Event>)
    ensures MessageMatchesStatus(Run(openedAt, es))
  {
    hide Step, MessageMatchesStatus;
    if es != [] {
      ErrorMessageIff(openedAt, es[..|es| - 1]);
      StepKeepsMessage(Run(openedAt, es[..|es| - 1]), es[|es| - 1]);
    } else {
      InitialMessage(openedAt);
    }
  }

  lemma InitialMessage(openedAt: int)
    ensures MessageMatchesStatus(Initial(openedAt))
  {
  }

  /** Data once shown as current is never replaced by a spinner: only an answer ends it. */
  lemma SuccessNeverLoads(m: Model, e: Event)
    requires m.ui.status.Success?
    ensures Step(m, e).ui != m.ui ==> (e.Succeed? || e.Fail?)
    ensures !Step(m, e).ui.status.Loading?
  {
  }

  function RunFrom(m: Model, es: seq<Event>): Model {
    if es == [] then m else Step(RunFrom(m, es[..|es| - 1]), es[|es| - 1])
  }

  /** After disposal nothing that happens changes the page or the menu, notifies anyone or begins a
      refresh. */
  lemma {:induction false} DisposedIsFrozen(m: Model, es: seq<Event>)
    requires m.disposed
    ensures var m' := RunFrom(m, es);
      m'.disposed && m'.ui == m.ui && m'.menu == m.menu && m'.notified == m.notified && m'.inFlight <= m.inFlight
  {
    if es != [] {
      DisposedIsFrozen(m, es[..|es| - 1]);
    }
  }

  predicate TimersMatchStart(m: Model) {
    m.timersArmed == if m.started then 1 else 0
  }

  lemma StepTimers(m: Model, e: Event)
    requires TimersMatchStart(m)
    ensures TimersMatchStart(Step(m, e)) && (Step(m, e).started <==> m.started || e == Start)
  {
  }

  /** However often `start` is called, at most one timer is ever armed. */
  lemma {:induction false} AtMostOneTimer(openedAt: int, es: seq<Event>)
    ensures var m := Run(openedAt, es);
      m.timersArmed == (if m.started then 1 else 0) && (m.started <==> Start in es)
  {
    hide Step;
    if es != [] {
      AtMostOneTimer(openedAt, es[..|es| - 1]);
      StepTimers(Run(openedAt, es[..|es| - 1]), es[|es| - 1]);
      assert es == es[..|es| - 1] + [es[|es| - 1]];
    }
  }

  /** The first start has happened and no disposal has come after it. */
  ghost predicate StartedSinceDisposal(es: seq<Event>) {
    exists k: nat :: StartsFor(es, k)
  }

  /** The timer runs exactly when the first start came after the last disposal. So a disposed
      controller is free of timers unless it was started only after it was disposed. */
  lemma {:induction false} TimerRunsIff(openedAt: int, es: seq<Event>)
    ensures Run(openedAt, es).timerLive <==> StartedSinceDisposal(es)
  {
    if es != [] {
      var before, e := es[..|es| - 1], es[|es| - 1];
      TimerRunsIff(openedAt, before);
      AtMostOneTimer(openedAt, before);
      StartedSinceDisposalStep(before, e);
      assert es == before + [e];
    }
  }

  /** `k` is the place of the first start, and nothing from there on disposes. */
  predicate StartsFor(es: seq<Event>, k: nat) {
    k < |es| && es[k] == Start && Start !in es[..k] && Dispose !in es[k..]
  }

  lemma StartsForStep(before: seq<Event>, e: Event, k: nat)
    ensures StartsFor(before + [e], k)
       <==> e != Dispose && (StartsFor(before, k) || (k == |before| && e == Start && Start !in before))
  {
    var es := before + [e];
    if k < |before| {
      assert es[..k] == before[..k] && es[k..] == before[k..] + [e];
    } else if k == |before| {
      assert es[..k] == before && es[k..] == [e];
    }
  }

  lemma StartedSinceDisposalStep(before: seq<Event>, e: Event)
    ensures StartedSinceDisposal(before + [e])
       <==> e != Dispose && (StartedSinceDisposal(before) || (e == Start && Start !in before))
  {
    hide StartsFor;
    forall k: nat
      ensures StartsFor(before + [e], k)
         <==> e != Dispose && (StartsFor(before, k) || (k == |before| && e == Start && Start !in before))
    {
      StartsForStep(before, e, k);
    }
    assert StartsFor(before + [e], |before|) || !StartsFor(before + [e], |before|);
  }

  /** A controller that is started after its disposal keeps a timer for good. */
  lemma StartAfterDisposeLeaks(openedAt: int)
    ensures var m := Run(openedAt, [Dispose, Start]); m.disposed && m.timerLive
  {
    var es := [Dispose, Start];
    assert es[..1] == [Dispose] && [Dispose][..0] == [];
    assert Run(openedAt, [Dispose]) == Step(Run(openedAt, []), Dispose);
    assert Run(openedAt, es) == Step(Run(openedAt, [Dispose]), Start);
  }
}
