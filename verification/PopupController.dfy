/**
 The popup controller's reconcile protocol. Every stretch of code between two
 awaits is one atomic step; the suspended calls of `reconcile` are kept in
 `bodies`, each at the await it is waiting for. The log records what the
 controller asked, heard and rendered, in order.
 */
module PopupControllers {
  import opened ByteStrings

  datatype ClientState = ClientState(selectedVaultId: Option<string>, vaults: seq<string>)

  datatype View = View(state: ClientState, library: seq<string>, remotes: seq<string>)

  datatype Event =
    | Started
    | Stopped
    | Invalidated(generation: nat)
    | AskedState
    | StateAnswered(asked: nat, state: ClientState)
    | AskedLists(vaultId: string)
    | ListsAnswered(listsAsked: nat, library: seq<string>, remotes: seq<string>)
    | Rendered(view: View, generation: nat, asked: nat, listsAsked: nat)

  /** Where one call of `reconcile` is suspended; `asked` and `listsAsked` are positions in the log. */
  datatype Phase =
    | AwaitState(generation: nat, asked: nat)
    | AwaitLists(generation: nat, asked: nat, state: ClientState, listsAsked: nat)
    | Rendering(generation: nat)
    | Settled

  datatype Controller = Controller(
    active: bool,
    generation: nat,
    renderedGeneration: int,
    reconciliation: Option<nat>,
    bodies: map<nat, Phase>,
    nextBody: nat,
    log: seq<Event>)

  const INITIAL := Controller(false, 0, -1, None, map[], 0, [])

  datatype Action =
    | Start
    | Stop
    | Refresh
    | Notify
    | StateResolved(body: nat, state: ClientState)
    | ListsResolved(body: nat, library: seq<string>, remotes: seq<string>)
    | FetchRejected(body: nat)
    | RenderReturned(body: nat)
    | RenderThrew(body: nat)
    | Finally(body: nat)

  // ----- Atomic stretches -----

  function Log(c: Controller, e: Event): Controller {
    c.(log := c.log + [e])
  }

  /** The head of the `while` loop of `reconcile`: leave when inactive, else capture the generation and ask. */
  function LoopHead(c: Controller, body: nat): Controller {
    if c.active then
      Log(c.(bodies := c.bodies[body := AwaitState(c.generation, |c.log|)]), AskedState)
    else
      c.(bodies := c.bodies[body := Settled])
  }

  function Invalidate(c: Controller): Controller {
    var c1 := Log(c.(generation := c.generation + 1), Invalidated(c.generation + 1));
    if c1.reconciliation.None? then
      LoopHead(c1.(nextBody := c1.nextBody + 1), c1.nextBody).(reconciliation := Some(c1.nextBody))
    else
      c1
  }

  predicate Stale(c: Controller, generation: nat) {
    !c.active || generation != c.generation
  }

  function Render(c: Controller, body: nat, generation: nat, view: View, asked: nat, listsAsked: nat): Controller {
    Log(c.(bodies := c.bodies[body := Rendering(generation)]), Rendered(view, generation, asked, listsAsked))
  }

  function AfterState(c: Controller, body: nat, generation: nat, asked: nat, state: ClientState): Controller {
    var c1 := Log(c, StateAnswered(asked, state));
    if Stale(c1, generation) then LoopHead(c1, body)
    else match state.selectedVaultId
      case None => Render(c1, body, generation, View(state, [], []), asked, asked)
      case Some(vault) =>
        Log(c1.(bodies := c1.bodies[body := AwaitLists(generation, asked, state, |c1.log|)]), AskedLists(vault))
  }

  function AfterLists(c: Controller, body: nat, phase: Phase, library: seq<string>, remotes: seq<string>): Controller
    requires phase.AwaitLists?
  {
    var c1 := Log(c, ListsAnswered(phase.listsAsked, library, remotes));
    if Stale(c1, phase.generation) then LoopHead(c1, body)
    else Render(c1, body, phase.generation, View(phase.state, library, remotes), phase.asked, phase.listsAsked)
  }

  function AfterFinally(c: Controller, body: nat): Controller {
    var c1 := c.(bodies := c.bodies - {body}, reconciliation := None);
    if c1.active && c1.renderedGeneration != c1.generation then Invalidate(c1) else c1
  }

  predicate Enabled(c: Controller, a: Action) {
    match a
    case Start => !c.active
    case Stop => c.active
    case Refresh => c.active
    case Notify => true
    case StateResolved(b, _) => b in c.bodies && c.bodies[b].AwaitState?
    case ListsResolved(b, _, _) => b in c.bodies && c.bodies[b].AwaitLists?
    case FetchRejected(b) => b in c.bodies && (c.bodies[b].AwaitState? || c.bodies[b].AwaitLists?)
    case RenderReturned(b) => b in c.bodies && c.bodies[b].Rendering?
    case RenderThrew(b) => b in c.bodies && c.bodies[b].Rendering?
    case Finally(b) => b in c.bodies && c.bodies[b].Settled?
  }

  /** One step; `start` while active, `stop` and `refresh` while inactive change nothing. */
  function Step(c: Controller, a: Action): Controller {
    if !Enabled(c, a) then c else
    match a
    case Start => Invalidate(Log(c.(active := true), Started))
    case Stop => Log(c.(active := false, generation := c.generation + 1), Stopped)
    case Refresh => Invalidate(c)
    case Notify => Invalidate(c)
    case StateResolved(b, state) => AfterState(c, b, c.bodies[b].generation, c.bodies[b].asked, state)
    case ListsResolved(b, library, remotes) => AfterLists(c, b, c.bodies[b], library, remotes)
    case FetchRejected(b) => c.(bodies := c.bodies[b := Settled])
    case RenderReturned(b) =>
      c.(renderedGeneration := c.bodies[b].generation, bodies := c.bodies[b := Settled])
    case RenderThrew(b) => c.(bodies := c.bodies[b := Settled])
    case Finally(b) => AfterFinally(c, b)
  }

  function Run(actions: seq<Action>): Controller {
    if actions == [] then INITIAL else Step(Run(actions[..|actions| - 1]), actions[|actions| - 1])
  }

  // ----- What the log may contain -----

  predicate Disturbs(e: Event) {
    e.Invalidated? || e.Stopped?
  }

  /** Nothing after position `since` of the log invalidates or stops. */
  ghost predicate QuietSince(log: seq<Event>, since: nat) {
    forall k | since < k < |log| :: !Disturbs(log[k])
  }

  /**
   The view rendered at position `r` shows the answer to a state request, and the answer to list
   requests for the vault that state selects; both were asked after the newest invalidation or stop.
   */
  ghost predicate FreshAt(log: seq<Event>, r: nat)
    requires r < |log| && log[r].Rendered?
  {
    var e := log[r];
    && e.asked < r && log[e.asked] == AskedState
    && QuietSince(log[..r], e.asked)
    && StateAnswered(e.asked, e.view.state) in log[e.asked..r]
    && match e.view.state.selectedVaultId
       case None => e.view.library == [] && e.view.remotes == []
       case Some(vault) =>
         && e.asked < e.listsAsked < r && log[e.listsAsked] == AskedLists(vault)
         && ListsAnswered(e.listsAsked, e.view.library, e.view.remotes) in log[e.listsAsked..r]
  }

  /** Whether the controller is active after the events of the log. */
  function ActiveIn(log: seq<Event>): bool {
    if log == [] then false
    else if log[|log| - 1].Started? then true
    else if log[|log| - 1].Stopped? then false
    else ActiveIn(log[..|log| - 1])
  }

  ghost predicate RendersFresh(log: seq<Event>) {
    forall r | 0 <= r < |log| && log[r].Rendered? :: FreshAt(log, r)
  }

  ghost predicate RendersWhileActive(log: seq<Event>) {
    forall r | 0 <= r < |log| && log[r].Rendered? :: ActiveIn(log[..r])
  }

  ghost predicate RendersIncrease(log: seq<Event>) {
    forall q, r | 0 <= q < r < |log| && log[q].Rendered? && log[r].Rendered? :: log[q].generation < log[r].generation
  }

  ghost predicate RendersBelow(log: seq<Event>, bound: int) {
    forall r | 0 <= r < |log| && log[r].Rendered? :: log[r].generation < bound
  }

  ghost predicate LogSafe(log: seq<Event>) {
    RendersFresh(log) && RendersWhileActive(log) && RendersIncrease(log)
  }

  // ----- The invariant -----

  ghost predicate PhaseOk(c: Controller, p: Phase) {
    match p
    case AwaitState(g, asked) =>
      && c.renderedGeneration < g <= c.generation && RendersBelow(c.log, g)
      && asked < |c.log| && c.log[asked] == AskedState
      && (g == c.generation ==> QuietSince(c.log, asked))
    case AwaitLists(g, asked, state, listsAsked) =>
      && c.renderedGeneration < g <= c.generation && RendersBelow(c.log, g)
      && asked < |c.log| && c.log[asked] == AskedState
      && (g == c.generation ==> QuietSince(c.log, asked))
      && StateAnswered(asked, state) in c.log[asked..]
      && state.selectedVaultId.Some?
      && asked < listsAsked < |c.log| && c.log[listsAsked] == AskedLists(state.selectedVaultId.value)
    case Rendering(g) => c.renderedGeneration < g <= c.generation && RenderIn(c.log, g)
    case Settled => true
  }

  /** A view of generation `g` was rendered. */
  ghost predicate RenderIn(log: seq<Event>, g: int) {
    log != [] && ((log[|log| - 1].Rendered? && log[|log| - 1].generation == g) || RenderIn(log[..|log| - 1], g))
  }

  /** The field tells of a render that happened. */
  ghost predicate RenderedOk(c: Controller) {
    c.renderedGeneration <= c.generation && (c.renderedGeneration >= 0 ==> RenderIn(c.log, c.renderedGeneration))
  }

  /** The recorded reconciliation is the only suspended body. */
  ghost predicate SingleFlight(c: Controller) {
    && c.bodies.Keys == (if c.reconciliation.None? then {} else {c.reconciliation.value})
    && (c.reconciliation.Some? ==> c.reconciliation.value < c.nextBody)
  }

  /** Nothing is owed: an active controller without a reconciliation shows the newest generation. */
  ghost predicate NothingLost(c: Controller) {
    c.active && c.reconciliation.None? ==> c.renderedGeneration == c.generation
  }

  ghost predicate Inv(c: Controller) {
    && SingleFlight(c)
    && NothingLost(c)
    && RenderedOk(c)
    && ActiveIn(c.log) == c.active
    && LogSafe(c.log)
    && RendersBelow(c.log, c.generation + 1)
    && (forall b | b in c.bodies :: PhaseOk(c, c.bodies[b]))
  }

  // ----- Appending to the log -----

  lemma AppendSafe(log: seq<Event>, e: Event)
    requires LogSafe(log) && !e.Rendered?
    ensures LogSafe(log + [e])
  {
    var longer := log + [e];
    forall r | 0 <= r < |longer| && longer[r].Rendered? ensures FreshAt(longer, r) && ActiveIn(longer[..r]) {
      FreshPrefix(log, [e], r);
    }
  }

  lemma FreshPrefix(log: seq<Event>, more: seq<Event>, r: nat)
    requires r < |log| && log[r].Rendered?
    ensures FreshAt(log + more, r) <==> FreshAt(log, r)
    ensures (log + more)[..r] == log[..r]
  {
    var longer := log + more;
    assert longer[..r] == log[..r];
    var e := log[r];
    if e.asked < r { assert longer[e.asked..r] == log[e.asked..r]; }
    if e.listsAsked < r { assert longer[e.listsAsked..r] == log[e.listsAsked..r]; }
  }

  lemma AppendRendered(log: seq<Event>, e: Event)
    requires LogSafe(log) && e.Rendered? && ActiveIn(log) && RendersBelow(log, e.generation)
    requires FreshAt(log + [e], |log|)
    ensures LogSafe(log + [e])
  {
    var longer := log + [e];
    forall r | 0 <= r < |longer| && longer[r].Rendered? ensures FreshAt(longer, r) && ActiveIn(longer[..r]) {
      if r < |log| { FreshPrefix(log, [e], r); } else { assert longer[..r] == log; }
    }
  }

  lemma AppendRenderIn(log: seq<Event>, e: Event)
    ensures forall g | RenderIn(log, g) :: RenderIn(log + [e], g)
    ensures e.Rendered? ==> RenderIn(log + [e], e.generation)
  {
    var longer := log + [e];
    assert longer[..|longer| - 1] == log && longer[|longer| - 1] == e;
  }

  lemma AppendActive(log: seq<Event>, e: Event)
    ensures ActiveIn(log + [e]) == if e.Started? then true else if e.Stopped? then false else ActiveIn(log)
  {
    assert (log + [e])[..|log|] == log;
  }

  /** Logging an event that disturbs nothing keeps every phase. */
  lemma PhaseAfterQuiet(c: Controller, e: Event, p: Phase)
    requires PhaseOk(c, p) && !Disturbs(e) && !e.Rendered?
    ensures PhaseOk(Log(c, e), p)
  {
    var longer := c.log + [e];
    AppendRenderIn(c.log, e);
    if p.AwaitLists? { assert longer[p.asked..] == c.log[p.asked..] + [e]; }
  }

  /** A new generation makes every waiting phase stale, so what is logged no longer matters to it. */
  lemma PhaseAfterDisturbance(c: Controller, d: Controller, e: Event, p: Phase)
    requires PhaseOk(c, p) && !e.Rendered?
    requires d.generation == c.generation + 1 && d.renderedGeneration == c.renderedGeneration && d.log == c.log + [e]
    ensures PhaseOk(d, p)
  {
    AppendRenderIn(c.log, e);
    if p.AwaitLists? { assert d.log[p.asked..] == c.log[p.asked..] + [e]; }
  }

  // ----- Every step keeps the invariant -----

  /** The invariant while `reconcile` is at its loop head: body `body` is running, not suspended. */
  ghost predicate AtLoopHead(c: Controller, body: nat) {
    && c.bodies.Keys <= {body}
    && body < c.nextBody
    && c.renderedGeneration < c.generation && RendersBelow(c.log, c.generation)
    && ActiveIn(c.log) == c.active
    && LogSafe(c.log)
  }

  lemma LoopHeadInv(c: Controller, body: nat)
    requires c.bodies.Keys <= {body} && body < c.nextBody && ActiveIn(c.log) == c.active && LogSafe(c.log)
    requires RenderedOk(c) && RendersBelow(c.log, c.generation + 1)
    requires c.active ==> AtLoopHead(c, body)
    ensures Inv(LoopHead(c, body).(reconciliation := Some(body)))
  {
    if c.active {
      AppendSafe(c.log, AskedState);
      AppendActive(c.log, AskedState);
      AppendRenderIn(c.log, AskedState);
    }
  }

  /** The first two lines of `invalidate`: a new generation, logged; a suspended body is now stale. */
  lemma NewGeneration(c: Controller)
    requires SingleFlight(c) && RenderedOk(c)
    requires ActiveIn(c.log) == c.active && LogSafe(c.log) && RendersBelow(c.log, c.generation + 1)
    requires forall b | b in c.bodies :: PhaseOk(c, c.bodies[b])
    ensures var d := Log(c.(generation := c.generation + 1), Invalidated(c.generation + 1));
      && ActiveIn(d.log) == d.active && LogSafe(d.log)
      && RendersBelow(d.log, c.generation + 1) && RendersBelow(d.log, c.generation + 2)
      && (forall b | b in d.bodies :: PhaseOk(d, d.bodies[b]))
  {
    var e := Invalidated(c.generation + 1);
    var d := Log(c.(generation := c.generation + 1), e);
    AppendSafe(c.log, e);
    AppendActive(c.log, e);
    AppendRenderIn(c.log, e);
    forall b | b in c.bodies ensures PhaseOk(d, c.bodies[b]) { PhaseAfterDisturbance(c, d, e, c.bodies[b]); }
  }

  lemma InvalidateInv(c: Controller)
    requires SingleFlight(c) && RenderedOk(c)
    requires ActiveIn(c.log) == c.active && LogSafe(c.log) && RendersBelow(c.log, c.generation + 1)
    requires forall b | b in c.bodies :: PhaseOk(c, c.bodies[b])
    ensures Inv(Invalidate(c))
  {
    var d := Log(c.(generation := c.generation + 1), Invalidated(c.generation + 1));
    if c.reconciliation.None? {
      StartBodyInv(c, d);
    } else {
      NewGeneration(c);
      assert Invalidate(c) == d;
    }
  }

  lemma StartBodyInv(c: Controller, d: Controller)
    requires SingleFlight(c) && RenderedOk(c) && c.reconciliation.None?
    requires ActiveIn(c.log) == c.active && LogSafe(c.log) && RendersBelow(c.log, c.generation + 1)
    requires d == Log(c.(generation := c.generation + 1), Invalidated(c.generation + 1))
    ensures Inv(Invalidate(c))
  {
    assert c.bodies == map[];
    NewGeneration(c);
    var e := d.(nextBody := d.nextBody + 1);
    LoopHeadInv(e, d.nextBody);
    assert Invalidate(c) == LoopHead(e, d.nextBody).(reconciliation := Some(d.nextBody));
  }

  lemma StopInv(c: Controller)
    requires Inv(c)
    ensures Inv(Step(c, Stop))
  {
    if c.active {
      var d := Step(c, Stop);
      AppendSafe(c.log, Stopped);
      AppendActive(c.log, Stopped);
      AppendRenderIn(c.log, Stopped);
      forall b | b in d.bodies ensures PhaseOk(d, d.bodies[b]) { PhaseAfterDisturbance(c, d, Stopped, c.bodies[b]); }
    }
  }

  lemma StartInv(c: Controller)
    requires Inv(c)
    ensures Inv(Step(c, Start))
  {
    if !c.active {
      var d := Log(c.(active := true), Started);
      AppendSafe(c.log, Started);
      AppendActive(c.log, Started);
      AppendRenderIn(c.log, Started);
      forall b | b in d.bodies ensures PhaseOk(d, d.bodies[b]) {
        PhaseAfterQuiet(c, Started, c.bodies[b]);
      }
      InvalidateInv(d);
    }
  }

  /** Rendering is safe when the phase was waiting with a generation that is still current. */
  lemma RenderInv(c: Controller, body: nat, e: Event)
    requires Inv(c) && c.reconciliation == Some(body) && e.Rendered? && c.active
    requires e.generation == c.generation && c.renderedGeneration < c.generation
    requires RendersBelow(c.log, c.generation)
    requires FreshAt(c.log + [e], |c.log|)
    ensures Inv(Render(c, body, e.generation, e.view, e.asked, e.listsAsked))
  {
    AppendRendered(c.log, e);
    AppendActive(c.log, e);
    AppendRenderIn(c.log, e);
    AppendBelow(c.log, e, c.generation + 1);
    RenderingInv(c, Render(c, body, e.generation, e.view, e.asked, e.listsAsked), body, e);
  }

  lemma AppendBelow(log: seq<Event>, e: Event, bound: int)
    requires RendersBelow(log, bound) && (e.Rendered? ==> e.generation < bound)
    ensures RendersBelow(log + [e], bound)
  {}

  lemma RenderingInv(c: Controller, d: Controller, body: nat, e: Event)
    requires SingleFlight(c) && c.reconciliation == Some(body) && RenderedOk(c) && c.active
    requires e.Rendered? && e.generation == c.generation && c.renderedGeneration < c.generation
    requires d.log == c.log + [e] && d == c.(bodies := c.bodies[body := Rendering(e.generation)], log := d.log)
    requires LogSafe(d.log) && ActiveIn(d.log) && RendersBelow(d.log, c.generation + 1) && RenderIn(d.log, e.generation)
    requires c.renderedGeneration >= 0 ==> RenderIn(d.log, c.renderedGeneration)
    ensures Inv(d)
  {
    assert d.bodies.Keys == {body};
  }

  lemma AnswerLogged(c: Controller, e: Event)
    requires Inv(c) && (e.StateAnswered? || e.ListsAnswered?)
    ensures Inv(Log(c, e))
  {
    AppendSafe(c.log, e);
    AppendActive(c.log, e);
    AppendRenderIn(c.log, e);
    forall b | b in c.bodies ensures PhaseOk(Log(c, e), c.bodies[b]) { PhaseAfterQuiet(c, e, c.bodies[b]); }
  }

  /** A stale answer sends the body back to the loop head. */
  lemma StaleInv(c: Controller, b: nat, e: Event)
    requires Inv(c) && b in c.bodies && (c.bodies[b].AwaitState? || c.bodies[b].AwaitLists?)
    requires Stale(c, c.bodies[b].generation) && (e.StateAnswered? || e.ListsAnswered?)
    ensures Inv(LoopHead(Log(c, e), b))
  {
    AnswerLogged(c, e);
    var d := Log(c, e);
    assert RendersBelow(d.log, c.bodies[b].generation);
    assert d.reconciliation == Some(b);
    LoopHeadInv(d, b);
  }

  lemma StateInv(c: Controller, b: nat, state: ClientState)
    requires Inv(c) && Enabled(c, StateResolved(b, state))
    ensures Inv(Step(c, StateResolved(b, state)))
  {
    var AwaitState(g, asked) := c.bodies[b];
    var answer := StateAnswered(asked, state);
    if Stale(c, g) {
      StaleInv(c, b, answer);
    } else if state.selectedVaultId.None? {
      StateRenderInv(c, b, state);
    } else {
      AskListsInv(c, b, state);
    }
  }

  lemma StateRenderInv(c: Controller, b: nat, state: ClientState)
    requires Inv(c) && Enabled(c, StateResolved(b, state)) && !Stale(c, c.bodies[b].generation)
    requires state.selectedVaultId.None?
    ensures Inv(Step(c, StateResolved(b, state)))
  {
    var AwaitState(g, asked) := c.bodies[b];
    var answer := StateAnswered(asked, state);
    var c1 := Log(c, answer);
    AnswerLogged(c, answer);
    assert PhaseOk(c1, c1.bodies[b]);
    var e := Rendered(View(state, [], []), g, asked, asked);
    var longer := c1.log + [e];
    assert longer[..|c1.log|] == c1.log;
    assert longer[asked..|c1.log|] == c1.log[asked..] == c.log[asked..] + [answer];
    RenderInv(c1, b, e);
  }

  lemma AskListsInv(c: Controller, b: nat, state: ClientState)
    requires Inv(c) && Enabled(c, StateResolved(b, state)) && !Stale(c, c.bodies[b].generation)
    requires state.selectedVaultId.Some?
    ensures Inv(Step(c, StateResolved(b, state)))
  {
    var answer := StateAnswered(c.bodies[b].asked, state);
    AnswerLogged(c, answer);
    assert answer in Log(c, answer).log[c.bodies[b].asked..] by {
      assert Log(c, answer).log[|c.log|] == answer;
    }
    AskListsAfterAnswer(Log(c, answer), b, state);
  }

  /** With the answer logged, the body asks for the lists. */
  lemma AskListsAfterAnswer(c: Controller, b: nat, state: ClientState)
    requires Inv(c) && b in c.bodies && c.bodies[b].AwaitState? && state.selectedVaultId.Some?
    requires StateAnswered(c.bodies[b].asked, state) in c.log[c.bodies[b].asked..]
    ensures var AwaitState(g, asked) := c.bodies[b];
      Inv(Log(c.(bodies := c.bodies[b := AwaitLists(g, asked, state, |c.log|)]),
              AskedLists(state.selectedVaultId.value)))
  {
    var AwaitState(g, asked) := c.bodies[b];
    var ask := AskedLists(state.selectedVaultId.value);
    AppendSafe(c.log, ask);
    AppendActive(c.log, ask);
    AppendRenderIn(c.log, ask);
    assert PhaseOk(c, c.bodies[b]);
    assert (c.log + [ask])[asked..] == c.log[asked..] + [ask];
  }

  lemma ListsInv(c: Controller, b: nat, library: seq<string>, remotes: seq<string>)
    requires Inv(c) && Enabled(c, ListsResolved(b, library, remotes))
    ensures Inv(Step(c, ListsResolved(b, library, remotes)))
  {
    var answer := ListsAnswered(c.bodies[b].listsAsked, library, remotes);
    if Stale(c, c.bodies[b].generation) {
      StaleInv(c, b, answer);
    } else {
      ListsRenderInv(c, b, library, remotes);
    }
  }

  lemma ListsRenderInv(c: Controller, b: nat, library: seq<string>, remotes: seq<string>)
    requires Inv(c) && Enabled(c, ListsResolved(b, library, remotes)) && !Stale(c, c.bodies[b].generation)
    ensures Inv(Step(c, ListsResolved(b, library, remotes)))
  {
    var answer := ListsAnswered(c.bodies[b].listsAsked, library, remotes);
    AnswerLogged(c, answer);
    assert PhaseOk(c, c.bodies[b]);
    assert answer in Log(c, answer).log[c.bodies[b].listsAsked..] by {
      assert Log(c, answer).log[|c.log|] == answer;
    }
    ListsRenderAfterAnswer(Log(c, answer), b, library, remotes);
  }

  /** With the answer logged, the body renders. */
  lemma ListsRenderAfterAnswer(c: Controller, b: nat, library: seq<string>, remotes: seq<string>)
    requires Inv(c) && b in c.bodies && c.bodies[b].AwaitLists? && !Stale(c, c.bodies[b].generation)
    requires c.bodies[b].listsAsked < |c.log|
    requires ListsAnswered(c.bodies[b].listsAsked, library, remotes) in c.log[c.bodies[b].listsAsked..]
    ensures var AwaitLists(g, asked, state, listsAsked) := c.bodies[b];
      Inv(Render(c, b, g, View(state, library, remotes), asked, listsAsked))
  {
    var AwaitLists(g, asked, state, listsAsked) := c.bodies[b];
    assert PhaseOk(c, c.bodies[b]);
    var e := Rendered(View(state, library, remotes), g, asked, listsAsked);
    var longer := c.log + [e];
    assert longer[..|c.log|] == c.log && longer[asked..|c.log|] == c.log[asked..];
    assert longer[listsAsked..|c.log|] == c.log[listsAsked..];
    RenderInv(c, b, e);
  }

  lemma FinallyInv(c: Controller, b: nat)
    requires Inv(c) && Enabled(c, Finally(b))
    ensures Inv(Step(c, Finally(b)))
  {
    var c1 := c.(bodies := c.bodies - {b}, reconciliation := None);
    if c1.active && c1.renderedGeneration != c1.generation { InvalidateInv(c1); }
  }

  lemma RenderReturnedInv(c: Controller, b: nat)
    requires Inv(c) && Enabled(c, RenderReturned(b))
    ensures Inv(Step(c, RenderReturned(b)))
  {
    assert PhaseOk(c, c.bodies[b]);
  }

  lemma StepInv(c: Controller, a: Action)
    requires Inv(c)
    ensures Inv(Step(c, a))
  {
    if Enabled(c, a) {
      match a
      case Start => StartInv(c);
      case Stop => StopInv(c);
      case Refresh => InvalidateInv(c);
      case Notify => InvalidateInv(c);
      case StateResolved(b, state) => StateInv(c, b, state);
      case ListsResolved(b, library, remotes) => ListsInv(c, b, library, remotes);
      case FetchRejected(b) =>
      case RenderReturned(b) => RenderReturnedInv(c, b);
      case RenderThrew(b) =>
      case Finally(b) => FinallyInv(c, b);
    }
  }

  lemma {:induction false} RunInv(actions: seq<Action>)
    ensures Inv(Run(actions))
  {
    if actions != [] {
      RunInv(actions[..|actions| - 1]);
      StepInv(Run(actions[..|actions| - 1]), actions[|actions| - 1]);
    }
  }

  // ----- Main results -----

  /** Run safety: one body at a time, renders only while active, rendered generations strictly increase. */
  lemma RunSafety(actions: seq<Action>)
    ensures var c := Run(actions);
      && |c.bodies| <= 1
      && RendersWhileActive(c.log)
      && RendersIncrease(c.log)
      && c.active == ActiveIn(c.log)
  {
    RunInv(actions);
    var c := Run(actions);
    assert |c.bodies| == |c.bodies.Keys|;
  }

  /** Freshness: every rendered view was asked for and answered after the newest invalidation or stop. */
  lemma Freshness(actions: seq<Action>, r: nat)
    requires r < |Run(actions).log| && Run(actions).log[r].Rendered?
    ensures FreshAt(Run(actions).log, r)
  {
    RunInv(actions);
  }

  /** Starting, stopping, refreshing: what is refused changes nothing, what is not takes a new generation. */
  lemma Lifecycle(actions: seq<Action>)
    ensures var c := Run(actions);
      var started, stopped := Run(actions + [Start]), Run(actions + [Stop]);
      var refreshed, notified := Run(actions + [Refresh]), Run(actions + [Notify]);
      && started.active && (c.active ==> started == c) && (!c.active ==> started.generation == c.generation + 1)
      && !stopped.active && (!c.active ==> stopped == c) && (c.active ==> stopped.generation == c.generation + 1)
      && (!c.active ==> refreshed == c) && (c.active ==> refreshed.generation == c.generation + 1)
      && notified.generation == c.generation + 1
  {
    forall a ensures (actions + [a])[..|actions|] == actions {}
  }

  /** The last view rendered. */
  function LastRender(log: seq<Event>): Option<Event> {
    if log == [] then None
    else if log[|log| - 1].Rendered? then Some(log[|log| - 1])
    else LastRender(log[..|log| - 1])
  }

  lemma AppendLast(log: seq<Event>, e: Event)
    ensures LastRender(log + [e]) == if e.Rendered? then Some(e) else LastRender(log)
  {
    assert (log + [e])[..|log|] == log;
  }

  /** Generations increase, so the render of the highest generation is the last one. */
  lemma {:induction false} HighestIsLast(log: seq<Event>, g: int)
    requires RendersIncrease(log) && RendersBelow(log, g + 1) && RenderIn(log, g)
    ensures LastRender(log).Some? && LastRender(log).value.Rendered? && LastRender(log).value.generation == g
  {
    var init, e := log[..|log| - 1], log[|log| - 1];
    assert log == init + [e];
    if !e.Rendered? {
      HighestIsLast(init, g);
    } else if RenderIn(init, g) {
      HighestIsLast(init, g);
      LastIsIn(init);
    }
  }

  lemma {:induction false} LastIsIn(log: seq<Event>)
    requires LastRender(log).Some?
    ensures exists r :: 0 <= r < |log| && log[r] == LastRender(log).value
  {
    var init, e := log[..|log| - 1], log[|log| - 1];
    if !e.Rendered? {
      LastIsIn(init);
      var r :| 0 <= r < |init| && init[r] == LastRender(init).value;
      assert log[r] == init[r];
    }
  }

  /**
   No lost update, across stop and start, rejected fetches and throwing renders: an active controller with
   no reconciliation has rendered its newest generation, and nothing after it.
   */
  lemma NoLostUpdate(actions: seq<Action>)
    ensures var c := Run(actions);
      c.active && c.reconciliation.None? ==>
        && c.renderedGeneration == c.generation
        && LastRender(c.log).Some? && LastRender(c.log).value.Rendered?
        && LastRender(c.log).value.generation == c.generation
  {
    RunInv(actions);
    var c := Run(actions);
    if c.active && c.reconciliation.None? { HighestIsLast(c.log, c.generation); }
  }

  /** The completion a waiting body gets from a client that answers and a view that renders. */
  function Completion(c: Controller, body: nat, view: View): Action
    requires body in c.bodies
  {
    match c.bodies[body]
    case AwaitState(_, _) => StateResolved(body, view.state)
    case AwaitLists(_, _, _, _) => ListsResolved(body, view.library, view.remotes)
    case Rendering(_) => RenderReturned(body)
    case Settled => Finally(body)
  }

  /** How many completions are left before the popup shows the newest generation. */
  function Remaining(c: Controller): nat {
    if c.reconciliation.None? || c.reconciliation.value !in c.bodies then 0 else
    match c.bodies[c.reconciliation.value]
    case AwaitState(g, _) => if g == c.generation then 4 else 5
    case AwaitLists(g, _, _, _) => if g == c.generation then 3 else 5
    case Rendering(g) => if g == c.generation then 2 else 6
    case Settled => if c.renderedGeneration == c.generation then 1 else 5
  }

  function Complete(c: Controller, view: View): Controller {
    if c.reconciliation.None? || c.reconciliation.value !in c.bodies then c
    else Step(c, Completion(c, c.reconciliation.value, view))
  }

  function CompleteMany(c: Controller, view: View, times: nat): Controller
    decreases times
  {
    if times == 0 then c else Complete(CompleteMany(c, view, times - 1), view)
  }

  lemma CompleteDecreases(c: Controller, view: View)
    requires c.active && c.reconciliation.Some? && c.reconciliation.value in c.bodies
    ensures Complete(c, view).active && Remaining(Complete(c, view)) < Remaining(c)
  {
    var b := c.reconciliation.value;
    var d := Complete(c, view);
    match c.bodies[b]
    case AwaitState(g, asked) =>
      assert d == AfterState(c, b, g, asked, view.state);
    case AwaitLists(g, asked, state, listsAsked) =>
      assert d == AfterLists(c, b, c.bodies[b], view.library, view.remotes);
    case Rendering(g) =>
      assert d == c.(renderedGeneration := g, bodies := c.bodies[b := Settled]);
    case Settled =>
      assert d == AfterFinally(c, b);
  }

  /** What the client's answers come to: without a vault there are no lists. */
  function Shown(view: View): View {
    if view.state.selectedVaultId.None? then View(view.state, [], []) else view
  }

  ghost predicate LastShows(log: seq<Event>, view: View) {
    LastRender(log).Some? && LastRender(log).value.Rendered? && LastRender(log).value.view == Shown(view)
  }

  /** Nothing but answers out of `view` can still be shown for the newest generation, or has been. */
  ghost predicate WillShow(c: Controller, view: View) {
    if c.reconciliation.None? || c.reconciliation.value !in c.bodies then LastShows(c.log, view)
    else
      match c.bodies[c.reconciliation.value]
      case AwaitState(_, _) => true
      case AwaitLists(g, _, state, _) => g == c.generation ==> state == view.state
      case Rendering(g) => g == c.generation ==> LastShows(c.log, view)
      case Settled => c.renderedGeneration == c.generation ==> LastShows(c.log, view)
  }

  lemma RenderShows(c: Controller, body: nat, g: nat, view: View, asked: nat, listsAsked: nat)
    ensures LastShows(Render(c, body, g, Shown(view), asked, listsAsked).log, view)
  {
    AppendLast(c.log, Rendered(Shown(view), g, asked, listsAsked));
  }

  lemma CompleteShows(c: Controller, view: View)
    requires Inv(c) && c.active && c.reconciliation.Some? && WillShow(c, view)
    ensures WillShow(Complete(c, view), view)
  {
    var b := c.reconciliation.value;
    match c.bodies[b]
    case AwaitState(g, asked) =>
      RenderShows(Log(c, StateAnswered(asked, view.state)), b, g, view, asked, asked);
    case AwaitLists(g, asked, state, listsAsked) =>
      RenderShows(Log(c, ListsAnswered(listsAsked, view.library, view.remotes)), b, g, view, asked, listsAsked);
    case Rendering(g) =>
    case Settled =>
  }

  function Minus(n: nat, k: nat): nat {
    if k < n then n - k else 0
  }

  lemma CompleteKeeps(c: Controller, d: Controller, view: View)
    requires Inv(c) && c.active && d == Complete(c, view)
    ensures Inv(d) && d.active && Remaining(d) <= Minus(Remaining(c), 1)
    ensures WillShow(c, view) ==> WillShow(d, view)
  {
    if c.reconciliation.Some? {
      CompleteDecreases(c, view);
      StepInv(c, Completion(c, c.reconciliation.value, view));
      if WillShow(c, view) { CompleteShows(c, view); }
    }
  }

  lemma {:induction false} CompletionsKeep(c: Controller, view: View, times: nat, d: Controller)
    requires Inv(c) && c.active && d == CompleteMany(c, view, times)
    ensures Inv(d) && d.active && Remaining(d) <= Minus(Remaining(c), times)
    ensures WillShow(c, view) ==> WillShow(d, view)
    decreases times
  {
    if times > 0 {
      var before := CompleteMany(c, view, times - 1);
      CompletionsKeep(c, view, times - 1, before);
      CompleteKeeps(before, d, view);
    }
  }

  /** At rest: nothing under way, and the newest generation rendered last. */
  ghost predicate AtRest(c: Controller) {
    && c.active && c.reconciliation.None? && c.bodies == map[] && c.renderedGeneration == c.generation
    && LastRender(c.log).Some? && LastRender(c.log).value.Rendered?
    && LastRender(c.log).value.generation == c.generation
  }

  lemma RestsWhenDone(c: Controller)
    requires Inv(c) && c.active && Remaining(c) == 0
    ensures AtRest(c)
  {
    HighestIsLast(c.log, c.generation);
  }

  /**
   From every reachable active state, at most six completions, with no further notification,
   bring the popup to rest showing the newest generation.
   */
  lemma CompletionsConverge(c: Controller, view: View, times: nat)
    requires Inv(c) && c.active && times >= Remaining(c)
    ensures AtRest(CompleteMany(c, view, times))
    ensures WillShow(c, view) ==> LastShows(CompleteMany(c, view, times).log, view)
  {
    var d := CompleteMany(c, view, times);
    CompletionsKeep(c, view, times, d);
    RestsWhenDone(d);
  }

  lemma SixCompletionsSuffice(actions: seq<Action>, view: View)
    requires Run(actions).active
    ensures AtRest(CompleteMany(Run(actions), view, 6))
  {
    RunInv(actions);
    CompletionsConverge(Run(actions), view, 6);
  }

  lemma DisturbedWillShow(c: Controller, view: View)
    requires Inv(c) && c.active
    ensures WillShow(Invalidate(c), view)
  {}

  /** After a refresh, six completions bring the popup to rest showing exactly what the client then answered. */
  lemma RefreshShowsAnswers(actions: seq<Action>, view: View)
    requires Run(actions).active
    ensures var d := CompleteMany(Run(actions + [Refresh]), view, 6); AtRest(d) && LastShows(d.log, view)
  {
    RunInv(actions);
    RunInv(actions + [Refresh]);
    assert (actions + [Refresh])[..|actions|] == actions;
    DisturbedWillShow(Run(actions), view);
    CompletionsConverge(Run(actions + [Refresh]), view, 6);
  }

  /** A rejected fetch or a throwing render is made good: when its body ends, a new generation is asked for. */
  lemma FailureRetried(actions: seq<Action>, a: Action)
    requires Run(actions).active && (a.FetchRejected? || a.RenderThrew?) && Enabled(Run(actions), a)
    ensures var c, d := Run(actions), Run(actions + [a] + [Finally(a.body)]);
      && d.generation == c.generation + 1
      && d.log == c.log + [Invalidated(d.generation), AskedState]
      && d.reconciliation.Some? && d.bodies == map[d.reconciliation.value := AwaitState(d.generation, |c.log| + 1)]
  {
    RunInv(actions);
    RunOn(actions, a);
    RunOn(actions + [a], Finally(a.body));
    FailureSettles(Run(actions), a);
    SettledRestarts(Step(Run(actions), a), a.body);
  }

  /** The failed body settles with its generation still to be shown. */
  lemma FailureSettles(c: Controller, a: Action)
    requires Inv(c) && (a.FetchRejected? || a.RenderThrew?) && Enabled(c, a)
    ensures Step(c, a) == c.(bodies := map[a.body := Settled]) && c.renderedGeneration != c.generation
  {
    assert PhaseOk(c, c.bodies[a.body]) && c.bodies.Keys == {a.body};
    assert c.bodies[a.body := Settled] == map[a.body := Settled];
  }

  lemma SettledRestarts(c: Controller, b: nat)
    requires c.active && c.bodies == map[b := Settled] && c.renderedGeneration != c.generation
    ensures var d := Step(c, Finally(b));
      && d.generation == c.generation + 1
      && d.log == c.log + [Invalidated(d.generation), AskedState]
      && d.reconciliation.Some? && d.bodies == map[d.reconciliation.value := AwaitState(d.generation, |c.log| + 1)]
  {
    assert c.bodies - {b} == map[];
  }

  lemma RunOn(actions: seq<Action>, a: Action)
    ensures Run(actions + [a]) == Step(Run(actions), a)
  {
    assert (actions + [a])[..|actions|] == actions;
  }

  // ----- Client calls that call back -----

  /** The step ends in a call of the client: `state()`, or the two list calls. */
  predicate CallsClient(c: Controller, a: Action) {
    var d := Step(c, a);
    |d.log| > |c.log| && (d.log[|d.log| - 1].AskedState? || d.log[|d.log| - 1].AskedLists?)
  }

  /**
   What `reconciliation` holds while the client is being called. `invalidate` assigns it only after
   `reconcile` has returned its promise, so the first call of a new body finds what was there before.
   */
  function RecordedAtCall(c: Controller, a: Action): Option<nat> {
    if a.Finally? then None else c.reconciliation
  }

  /** A step whose client call synchronously calls back into `refresh`; the interrupted step then records its body. */
  function ReentrantStep(c: Controller, a: Action): Controller {
    var d := Step(c, a);
    var inner := Invalidate(d.(reconciliation := RecordedAtCall(c, a)));
    inner.(reconciliation := if RecordedAtCall(c, a).None? then d.reconciliation else inner.reconciliation)
  }

  lemma CallerIsSuspended(c: Controller, a: Action)
    requires Inv(c) && CallsClient(c, a)
    ensures var d := Step(c, a); d.active && d.reconciliation.Some? && d.bodies.Keys == {d.reconciliation.value}
    ensures RecordedAtCall(c, a).Some? ==> RecordedAtCall(c, a) == Step(c, a).reconciliation
    ensures RecordedAtCall(c, a).None? ==> Step(c, a).reconciliation.value < Step(c, a).nextBody
  {
    StepInv(c, a);
  }

  /**
   Re-entry is harmless exactly when the calling body was already recorded: then it is the step followed
   by an ordinary `refresh`, and otherwise a second body runs beside the first.
   */
  lemma ReentryHarmlessIff(actions: seq<Action>, a: Action)
    requires CallsClient(Run(actions), a)
    ensures var c := Run(actions);
      && (|ReentrantStep(c, a).bodies| <= 1 <==> RecordedAtCall(c, a).Some?)
      && (RecordedAtCall(c, a).Some? ==> ReentrantStep(c, a) == Step(Step(c, a), Refresh) && Inv(ReentrantStep(c, a)))
      && (RecordedAtCall(c, a).None? ==> |ReentrantStep(c, a).bodies| == 2)
  {
    RunInv(actions);
    var c := Run(actions);
    CallerIsSuspended(c, a);
    if RecordedAtCall(c, a).Some? {
      RecordedReentry(c, a);
    } else {
      UnrecordedReentry(c, a);
    }
  }

  lemma RecordedReentry(c: Controller, a: Action)
    requires Inv(c) && CallsClient(c, a) && RecordedAtCall(c, a).Some?
    ensures ReentrantStep(c, a) == Step(Step(c, a), Refresh) && Inv(ReentrantStep(c, a))
    ensures |ReentrantStep(c, a).bodies| <= 1
  {
    CallerIsSuspended(c, a);
    StepInv(c, a);
    StepInv(Step(c, a), Refresh);
    var r := ReentrantStep(c, a);
    assert |r.bodies| == |r.bodies.Keys|;
  }

  lemma UnrecordedReentry(c: Controller, a: Action)
    requires Inv(c) && CallsClient(c, a) && RecordedAtCall(c, a).None?
    ensures |ReentrantStep(c, a).bodies| == 2
  {
    CallerIsSuspended(c, a);
    var d, r := Step(c, a), ReentrantStep(c, a);
    assert r.bodies.Keys == {d.reconciliation.value, d.nextBody};
    assert |r.bodies| == |r.bodies.Keys|;
  }

  /** The shortest run that breaks single flight: a client that calls back from the first `state()`. */
  lemma ReentryBreaksSingleFlight()
    ensures CallsClient(INITIAL, Start) && |ReentrantStep(INITIAL, Start).bodies| == 2
  {
    RunInv([]);
    assert Run([]) == INITIAL;
    ReentryHarmlessIff([], Start);
  }

  // ----- The controller object -----

  class CanonicalPopupController {
    var active: bool
    var generation: nat
    var renderedGeneration: int
    var reconciliation: Option<nat>
    var bodies: map<nat, Phase>
    var nextBody: nat
    var log: seq<Event>

    ghost function Value(): Controller
      reads this
    {
      Controller(active, generation, renderedGeneration, reconciliation, bodies, nextBody, log)
    }

    constructor ()
      ensures Value() == INITIAL
    {
      active, generation, renderedGeneration := false, 0, -1;
      reconciliation, bodies, nextBody, log := None, map[], 0, [];
    }

    method StartController() returns (ok: bool)
      modifies this
      ensures ok == !old(active)
      ensures Value() == Step(old(Value()), Start)
    {
      if active {
        return false;
      }
      active := true;
      log := log + [Started];
      InvalidateView();
      return true;
    }

    method StopController()
      modifies this
      ensures Value() == Step(old(Value()), Stop)
    {
      if !active {
        return;
      }
      active := false;
      generation := generation + 1;
      log := log + [Stopped];
    }

    method RefreshView() returns (ok: bool)
      modifies this
      ensures ok == old(active)
      ensures Value() == Step(old(Value()), Refresh)
    {
      if !active {
        return false;
      }
      InvalidateView();
      return true;
    }

    method InvalidateView()
      modifies this
      ensures Value() == Invalidate(old(Value()))
    {
      generation := generation + 1;
      log := log + [Invalidated(generation)];
      if reconciliation.None? {
        var body := nextBody;
        nextBody := nextBody + 1;
        EnterLoop(body);
        reconciliation := Some(body);
      }
    }

    method EnterLoop(body: nat)
      modifies this`bodies, this`log
      ensures Value() == LoopHead(old(Value()), body)
    {
      if active {
        bodies := bodies[body := AwaitState(generation, |log|)];
        log := log + [AskedState];
      } else {
        bodies := bodies[body := Settled];
      }
    }

    method OnState(body: nat, state: ClientState)
      requires body in bodies && bodies[body].AwaitState?
      modifies this
      ensures Value() == Step(old(Value()), StateResolved(body, state))
    {
      var captured, asked := bodies[body].generation, bodies[body].asked;
      log := log + [StateAnswered(asked, state)];
      if !active || captured != generation {
        EnterLoop(body);
      } else if state.selectedVaultId.None? {
        RenderView(body, captured, View(state, [], []), asked, asked);
      } else {
        bodies := bodies[body := AwaitLists(captured, asked, state, |log|)];
        log := log + [AskedLists(state.selectedVaultId.value)];
      }
    }

    method OnLists(body: nat, library: seq<string>, remotes: seq<string>)
      requires body in bodies && bodies[body].AwaitLists?
      modifies this
      ensures Value() == Step(old(Value()), ListsResolved(body, library, remotes))
    {
      var AwaitLists(captured, asked, state, listsAsked) := bodies[body];
      log := log + [ListsAnswered(listsAsked, library, remotes)];
      if !active || captured != generation {
        EnterLoop(body);
      } else {
        RenderView(body, captured, View(state, library, remotes), asked, listsAsked);
      }
    }

    method RenderView(body: nat, captured: nat, view: View, asked: nat, listsAsked: nat)
      modifies this`bodies, this`log
      ensures Value() == Render(old(Value()), body, captured, view, asked, listsAsked)
    {
      bodies := bodies[body := Rendering(captured)];
      log := log + [Rendered(view, captured, asked, listsAsked)];
    }

    method OnRendered(body: nat)
      requires body in bodies && bodies[body].Rendering?
      modifies this
      ensures Value() == Step(old(Value()), RenderReturned(body))
    {
      renderedGeneration := bodies[body].generation;
      bodies := bodies[body := Settled];
    }

    /** A rejected fetch leaves `reconcile` by throwing; so does a render that throws. */
    method OnFetchRejected(body: nat)
      requires body in bodies && (bodies[body].AwaitState? || bodies[body].AwaitLists?)
      modifies this`bodies
      ensures Value() == Step(old(Value()), FetchRejected(body))
    {
      bodies := bodies[body := Settled];
    }

    method OnRenderThrew(body: nat)
      requires body in bodies && bodies[body].Rendering?
      modifies this`bodies
      ensures Value() == Step(old(Value()), RenderThrew(body))
    {
      bodies := bodies[body := Settled];
    }

    method OnFinally(body: nat)
      requires body in bodies && bodies[body].Settled?
      modifies this
      ensures Value() == Step(old(Value()), Finally(body))
    {
      bodies := bodies - {body};
      reconciliation := None;
      if active && renderedGeneration != generation {
        InvalidateView();
      }
    }
  }
}
