/** What holds after every run of the window tracking protocol, stated over the event history. */
module WindowRuns {
  import opened Lists
  import opened WindowState
  import opened WindowInvariant

  // ---------- What one event does to the parts that the history determines ----------

  lemma AddWindowEffect<W, M>(s: State<W, M>, m: M, w: W)
    requires w in s.win && m in s.models
    ensures var t := AddWindow(s, m, w);
      && t == s.(win := t.win, models := s.models[m := AddRow(s.models[m], w)])
      && t.win.Keys == s.win.Keys
      && forall u | u in s.win :: t.win[u] == s.win[u].(slots := t.win[u].slots)
  {
    if w in s.models[m].rows {
      assert s.models[m := s.models[m]] == s.models;
    }
  }

  lemma {:induction false} CreatedSignalEffect<W, M>(s: State<W, M>, w: W, order: seq<M>)
    requires w in s.win && NoDup(order) && forall m | m in order :: m in s.models
    ensures var t := EmitCreated(s, w, order);
      && t == s.(win := t.win, models := t.models)
      && (forall u | u in s.win :: t.win[u] == s.win[u].(slots := t.win[u].slots))
      && (forall m | m in s.models :: t.models[m] == if m in order then AddRow(s.models[m], w) else s.models[m])
  {
    if order != [] {
      var before, m := order[..|order| - 1], order[|order| - 1];
      assert order == before + [m] && m !in before;
      CreatedSignalEffect(s, w, before);
      AddWindowEffect(EmitCreated(s, w, before), m, w);
    }
  }

  lemma {:induction false} SnapshotEffect<W, M>(s: State<W, M>, m: M, windows: seq<W>)
    requires m in s.models && s.models[m].rows == [] && NoDup(windows)
    requires forall w | w in windows :: w in s.win
    ensures var t := Snapshot(s, m, windows);
      && t == s.(win := t.win, models := t.models)
      && (forall u | u in s.win :: t.win[u] == s.win[u].(slots := t.win[u].slots))
      && t.models == s.models[m := t.models[m]]
      && t.models[m].rows == windows
  {
    if windows == [] {
      assert s.models[m := s.models[m]] == s.models;
    } else {
      var before, w := windows[..|windows| - 1], windows[|windows| - 1];
      assert windows == before + [w] && w !in before;
      SnapshotEffect(s, m, before);
      AddWindowEffect(Snapshot(s, m, before), m, w);
    }
  }

  /** The active window after an event, from the state before. */
  function NextActive<W, M>(s: State<W, M>, e: Event<W, M>): Option<W>
    requires e.StateChanged? ==> e.w in s.win
  {
    match e
    case StateChanged(w, active) =>
      if s.win[w].active == active then s.active
      else if active then Some(w)
      else if s.active == Some(w) then None else s.active
    case Unmapped(w) => if s.active == Some(w) then None else s.active
    case Destroyed(w) => if s.active == Some(w) then None else s.active
    case _ => s.active
  }

  ghost predicate ManagerAfter<W, M>(s: State<W, M>, e: Event<W, M>, t: State<W, M>)
    requires e.StateChanged? ==> e.w in s.win
  {
    && t.active == NextActive(s, e)
    && t.activeSignals == s.activeSignals + (if t.active != s.active then 1 else 0)
    && t.bound == (e.Setup? || (s.bound && !e.Released?))
  }

  lemma StateChangedManager<W, M>(s: State<W, M>, w: W, active: bool)
    requires Inv(s) && w in s.win
    ensures ManagerAfter(s, StateChanged(w, active), OnStateChanged(s, w, active))
  {
    if s.win[w].active != active { StateChangedEffect(s, w, active); }
  }

  lemma UnmappedManager<W, M>(s: State<W, M>, w: W)
    requires Inv(s) && w in s.win
    ensures ManagerAfter(s, Unmapped(w), OnUnmapped(s, w))
  {
    UnmapClearsChildren(s, w);
  }

  lemma DestroyedManager<W, M>(s: State<W, M>, w: W)
    requires Inv(s) && w in s.win
    ensures ManagerAfter(s, Destroyed(w), OnDestroyed(s, w))
  {
    DestroyedEffect(s, w);
  }

  lemma InitialStateManager<W, M>(s: State<W, M>, w: W)
    requires Inv(s) && w in s.win
    ensures ManagerAfter(s, InitialState(w), OnInitialState(s, w))
  {
    CreatedSignalEffect(s, w, s.order);
  }

  lemma ModelCreatedManager<W, M>(s: State<W, M>, m: M)
    requires Inv(s) && m !in s.models
    ensures ManagerAfter(s, ModelCreated(m), OnModelCreated(s, m))
  {
    SnapshotEffect(s.(order := s.order + [m], models := s.models[m := Model([], [])]), m, s.windows);
  }

  lemma ReleasedManager<W, M>(s: State<W, M>)
    requires Inv(s)
    ensures ManagerAfter(s, Released, OnReleased(s))
  {
    ReleasedSignalEffect(s, s.order);
  }

  /** What an event does to the manager's own fields. */
  lemma StepManager<W, M>(s: State<W, M>, e: Event<W, M>)
    requires Inv(s) && Enabled(s, e)
    ensures ManagerAfter(s, e, Step(s, e))
  {
    match e
    case StateChanged(w, active) => StateChangedManager(s, w, active);
    case InitialState(w) => InitialStateManager(s, w);
    case Unmapped(w) => UnmappedManager(s, w);
    case Destroyed(w) => DestroyedManager(s, w);
    case ModelCreated(m) => ModelCreatedManager(s, m);
    case Released => ReleasedManager(s);
    case _ =>
  }

  /** activeWindowChanged is emitted exactly when the active window changes. */
  lemma StepActive<W, M>(s: State<W, M>, e: Event<W, M>)
    requires Inv(s) && Enabled(s, e)
    ensures var t := Step(s, e);
      && t.active == NextActive(s, e)
      && t.activeSignals == s.activeSignals + (if t.active != s.active then 1 else 0)
  {
    StepManager(s, e);
  }

  /** The windows that exist after an event. */
  function NextWindows<W, M>(s: State<W, M>, e: Event<W, M>): seq<W> {
    match e
    case Created(w) => s.windows + [w]
    case Destroyed(w) => Without(s.windows, w)
    case _ => s.windows
  }

  function NextFlag<W(==), M>(before: bool, e: Event<W, M>, u: W): bool {
    match e
    case StateChanged(w, active) => if w == u then active else before
    case _ => before
  }

  function NextKeys<W, M>(s: State<W, M>, e: Event<W, M>): set<W> {
    match e
    case Created(w) => s.win.Keys + {w}
    case Destroyed(w) => s.win.Keys - {w}
    case _ => s.win.Keys
  }

  ghost predicate FlagsAfter<W, M>(s: State<W, M>, e: Event<W, M>, t: State<W, M>) {
    && t.windows == NextWindows(s, e)
    && t.win.Keys == NextKeys(s, e)
    && forall u | u in t.win ::
      if u in s.win then
        && t.win[u].active == NextFlag(s.win[u].active, e, u)
        && t.win[u].unmapped == (e == Unmapped(u) || s.win[u].unmapped)
      else !t.win[u].active && !t.win[u].unmapped && t.win[u].parent == None && t.win[u].parentSignals == 0
  }

  lemma ParentWindowFlags<W, M>(s: State<W, M>, w: W, p: Option<W>)
    requires w in s.win
    ensures FlagsAfter(s, ParentWindow(w, p), OnParentWindow(s, w, p))
  {
    var q := Lookup(s, p);
    SetParentFields(s.win, w, q, w);
    forall u | u in s.win
      ensures var t := SetParent(s.win, w, q); t[u].active == s.win[u].active && t[u].unmapped == s.win[u].unmapped
    {
      SetParentFields(s.win, w, q, u);
    }
  }

  lemma UnmappedFlags<W, M>(s: State<W, M>, w: W)
    requires Inv(s) && w in s.win
    ensures FlagsAfter(s, Unmapped(w), OnUnmapped(s, w))
  {
    UnmapClearsChildren(s, w);
    forall u | u in s.win ensures ChildReleased(s.win[u], OnUnmapped(s, w).win[u], w, u == w) {
    }
  }

  lemma DestroyedFlags<W, M>(s: State<W, M>, w: W)
    requires Inv(s) && w in s.win
    ensures FlagsAfter(s, Destroyed(w), OnDestroyed(s, w))
  {
    DestroyedEffect(s, w);
  }

  lemma SlotsOnlyFlags<W, M>(s: State<W, M>, e: Event<W, M>, t: State<W, M>)
    requires e.InitialState? || e.ModelCreated? || e.Released? || e.Setup?
    requires t.windows == s.windows && t.win.Keys == s.win.Keys
    requires forall u | u in s.win :: t.win[u] == s.win[u].(slots := t.win[u].slots)
    ensures FlagsAfter(s, e, t)
  {
  }

  lemma InitialStateFlags<W, M>(s: State<W, M>, w: W)
    requires Inv(s) && w in s.win
    ensures FlagsAfter(s, InitialState(w), OnInitialState(s, w))
  {
    CreatedSignalEffect(s, w, s.order);
    SlotsOnlyFlags(s, InitialState(w), OnInitialState(s, w));
  }

  lemma ReleasedFlags<W, M>(s: State<W, M>)
    requires Inv(s)
    ensures FlagsAfter(s, Released, OnReleased(s))
  {
    ReleasedSignalEffect(s, s.order);
    SlotsOnlyFlags(s, Released, OnReleased(s));
  }

  lemma StateChangedFlags<W, M>(s: State<W, M>, w: W, active: bool)
    requires Inv(s) && w in s.win
    ensures FlagsAfter(s, StateChanged(w, active), OnStateChanged(s, w, active))
  {
    if s.win[w].active != active {
      StateChangedFrame(s, w, active);
    }
  }

  lemma ModelCreatedFlags<W, M>(s: State<W, M>, m: M)
    requires Inv(s) && m !in s.models
    ensures FlagsAfter(s, ModelCreated(m), OnModelCreated(s, m))
  {
    SnapshotEffect(s.(order := s.order + [m], models := s.models[m := Model([], [])]), m, s.windows);
    SlotsOnlyFlags(s, ModelCreated(m), OnModelCreated(s, m));
  }

  /** Active and unmapped flags change only by the events that name the window. */
  lemma StepFlags<W, M>(s: State<W, M>, e: Event<W, M>)
    requires Inv(s) && Enabled(s, e)
    ensures FlagsAfter(s, e, Step(s, e))
  {
    match e
    case Created(w) =>
    case StateChanged(w, active) => StateChangedFlags(s, w, active);
    case ParentWindow(w, p) => ParentWindowFlags(s, w, p);
    case InitialState(w) => InitialStateFlags(s, w);
    case Unmapped(w) => UnmappedFlags(s, w);
    case Destroyed(w) => DestroyedFlags(s, w);
    case ModelCreated(m) => ModelCreatedFlags(s, m);
    case Released => ReleasedFlags(s);
    case Setup =>
  }

  /** The rows of a model after an event, from the state before. */
  function NextRows<W, M>(s: State<W, M>, e: Event<W, M>, rows: seq<W>): seq<W>
    requires e.InitialState? ==> e.w in s.win
  {
    match e
    case InitialState(w) => if s.win[w].unmapped || w in rows then rows else rows + [w]
    case Unmapped(w) => Without(rows, w)
    case Destroyed(w) => Without(rows, w)
    case Released => if s.bound then [] else rows
    case _ => rows
  }

  ghost predicate RowsAfter<W, M>(s: State<W, M>, e: Event<W, M>, t: State<W, M>)
    requires e.InitialState? ==> e.w in s.win
  {
    && t.models.Keys == (if e.ModelCreated? then s.models.Keys + {e.m} else s.models.Keys)
    && (forall m | m in s.models && e != ModelCreated(m) :: t.models[m].rows == NextRows(s, e, s.models[m].rows))
    && (e.ModelCreated? ==> t.models[e.m].rows == s.windows)
  }

  lemma NewModelRows<W, M>(s: State<W, M>, m: M, t: State<W, M>)
    requires m !in s.models && m in t.models
    requires t.models == s.models[m := t.models[m]] && t.models[m].rows == s.windows
    ensures RowsAfter(s, ModelCreated(m), t)
  {
  }

  lemma ModelCreatedRows<W, M>(s: State<W, M>, m: M)
    requires Inv(s) && m !in s.models
    ensures RowsAfter(s, ModelCreated(m), OnModelCreated(s, m))
  {
    var t := OnModelCreated(s, m);
    assert t.models == s.models[m := t.models[m]] && t.models[m].rows == s.windows by {
      var base := s.models[m := Model([], [])];
      SnapshotEffect(s.(order := s.order + [m], models := base), m, s.windows);
      assert base[m := t.models[m]] == s.models[m := t.models[m]];
    }
    NewModelRows(s, m, t);
  }

  lemma UnmappedRows<W, M>(s: State<W, M>, w: W)
    requires Inv(s) && w in s.win
    ensures RowsAfter(s, Unmapped(w), OnUnmapped(s, w))
  {
    UnmapClearsChildren(s, w);
  }

  lemma DestroyedRowsAfter<W, M>(s: State<W, M>, w: W)
    requires Inv(s) && w in s.win
    ensures RowsAfter(s, Destroyed(w), OnDestroyed(s, w))
  {
    DestroyedEffect(s, w);
  }

  lemma StateChangedRows<W, M>(s: State<W, M>, w: W, active: bool)
    requires Inv(s) && w in s.win
    ensures RowsAfter(s, StateChanged(w, active), OnStateChanged(s, w, active))
  {
    if s.win[w].active != active { StateChangedEffect(s, w, active); }
  }

  lemma InitialStateRows<W, M>(s: State<W, M>, w: W)
    requires Inv(s) && w in s.win
    ensures RowsAfter(s, InitialState(w), OnInitialState(s, w))
  {
    CreatedSignalEffect(s, w, s.order);
  }

  lemma ReleasedRows<W, M>(s: State<W, M>)
    requires Inv(s)
    ensures RowsAfter(s, Released, OnReleased(s))
  {
    ReleasedSignalEffect(s, s.order);
  }

  /** The rows of a model change by the events below and by no others, and a new model starts with all
      windows of the manager. */
  lemma StepRows<W, M>(s: State<W, M>, e: Event<W, M>)
    requires Inv(s) && Enabled(s, e)
    ensures RowsAfter(s, e, Step(s, e))
  {
    match e
    case StateChanged(w, active) => StateChangedRows(s, w, active);
    case InitialState(w) => InitialStateRows(s, w);
    case Unmapped(w) => UnmappedRows(s, w);
    case Destroyed(w) => DestroyedRowsAfter(s, w);
    case ModelCreated(m) => ModelCreatedRows(s, m);
    case Released => ReleasedRows(s);
    case _ =>
  }

  // ---------- Runs ----------

  function Before<T>(trace: seq<T>): seq<T>
    requires trace != []
  {
    trace[..|trace| - 1]
  }

  function Last<T>(trace: seq<T>): T
    requires trace != []
  {
    trace[|trace| - 1]
  }

  ghost predicate Legal<W, M>(trace: seq<Event<W, M>>)
    decreases |trace|, 0
  {
    trace != [] ==> Legal(Before(trace)) && Enabled(Run(Before(trace)), Last(trace))
  }

  ghost function Run<W, M>(trace: seq<Event<W, M>>): State<W, M>
    requires Legal(trace)
    decreases |trace|, 1
  {
    if trace == [] then Initial() else Step(Run(Before(trace)), Last(trace))
  }

  /** Whatever the compositor and the client do, every run keeps the invariant. */
  lemma {:induction false} RunKeepsInv<W, M>(trace: seq<Event<W, M>>)
    requires Legal(trace)
    ensures Inv(Run(trace))
  {
    if trace != [] {
      RunKeepsInv(Before(trace));
      StepKeepsInv(Run(Before(trace)), Last(trace));
    }
  }

  lemma {:induction false} ExtendRun<W, M>(trace: seq<Event<W, M>>, e: Event<W, M>)
    requires Legal(trace) && Enabled(Run(trace), e)
    ensures Legal(trace + [e]) && Run(trace + [e]) == Step(Run(trace), e)
  {
    assert Before(trace + [e]) == trace;
  }

  lemma {:induction false} LegalPrefix<W, M>(trace: seq<Event<W, M>>, n: nat)
    requires Legal(trace) && n <= |trace|
    ensures Legal(trace[..n])
  {
    if n == |trace| {
      assert trace[..n] == trace;
    } else {
      LegalPrefix(Before(trace), n);
      assert Before(trace)[..n] == trace[..n];
    }
  }

  // ---------- What exists ----------

  /** The window the i-th event creates, if no later event deletes it. */
  ghost function Existing<W, M>(trace: seq<Event<W, M>>, i: nat): seq<W>
    requires i < |trace|
  {
    match trace[i]
    case Created(w) => if forall j | i < j < |trace| :: trace[j] != Destroyed(w) then [w] else []
    case _ => []
  }

  ghost function AllExisting<W, M>(trace: seq<Event<W, M>>): seq<seq<W>> {
    seq(|trace|, i requires 0 <= i < |trace| => Existing(trace, i))
  }

  /** Which windows a further event leaves in existence. */
  function Spares<W(==), M(==)>(e: Event<W, M>): W -> bool {
    (w: W) => e != Destroyed(w)
  }

  lemma {:induction false} ExistingStep<W, M>(trace: seq<Event<W, M>>, i: nat)
    requires trace != [] && i < |trace| - 1
    ensures Existing(trace, i) == Keep(Existing(Before(trace), i), Spares(Last(trace)))
  {
    assert forall j | 0 <= j < |trace| - 1 :: Before(trace)[j] == trace[j];
    assert trace[|trace| - 1] == Last(trace);
    var part := Existing(Before(trace), i);
    if part != [] {
      KeepOne(part[0], Spares(Last(trace)));
      assert part == [part[0]];
    }
  }

  lemma {:induction false} AllExistingStep<W, M>(trace: seq<Event<W, M>>)
    requires trace != []
    ensures var e := Last(trace);
      Flatten(AllExisting(trace))
        == Keep(Flatten(AllExisting(Before(trace))), Spares(e)) + (if e.Created? then [e.w] else [])
  {
    var parts, more := AllExisting(Before(trace)), AllExisting(trace);
    forall i | 0 <= i < |parts| ensures more[i] == Keep(parts[i], Spares(Last(trace))) {
      ExistingStep(trace, i);
    }
    FlattenStep(parts, more, Spares(Last(trace)));
  }

  lemma NextWindowsAre<W, M>(s: State<W, M>, e: Event<W, M>)
    ensures NextWindows(s, e) == Keep(s.windows, Spares(e)) + (if e.Created? then [e.w] else [])
  {
    if e.Destroyed? {
      WithoutIsKeep(s.windows, e.w, Spares(e));
    } else {
      KeepAll(s.windows, Spares(e));
    }
    assert Keep(s.windows, Spares(e)) + [] == Keep(s.windows, Spares(e));
  }

  /** On every run the manager lists the windows that were created and not deleted, in order of creation. */
  lemma {:induction false} WindowsExactly<W, M>(trace: seq<Event<W, M>>)
    requires Legal(trace)
    ensures Run(trace).windows == Flatten(AllExisting(trace))
  {
    if trace != [] {
      WindowsExactly(Before(trace));
      AllExistingStep(trace);
      RunKeepsInv(Before(trace));
      StepFlags(Run(Before(trace)), Last(trace));
      NextWindowsAre(Run(Before(trace)), Last(trace));
    }
  }

  /** The i-th event binds the manager, and no later event releases it. */
  ghost predicate BoundSince<W, M>(trace: seq<Event<W, M>>, i: nat)
    requires i < |trace|
  {
    trace[i] == Setup && forall j | i < j < |trace| :: trace[j] != Released
  }

  ghost predicate EverBound<W, M>(trace: seq<Event<W, M>>) {
    exists i | 0 <= i < |trace| :: BoundSince(trace, i)
  }

  lemma {:induction false} BoundStep<W, M>(trace: seq<Event<W, M>>)
    requires trace != []
    ensures EverBound(trace) <==> Last(trace) == Setup || (EverBound(Before(trace)) && Last(trace) != Released)
  {
    var n, e := |trace| - 1, Last(trace);
    forall i | 0 <= i < n ensures BoundSince(trace, i) <==> BoundSince(Before(trace), i) && e != Released {
      assert forall j | 0 <= j < n :: Before(trace)[j] == trace[j];
      assert trace[n] == e;
    }
    assert BoundSince(trace, n) <==> e == Setup;
  }

  /** The manager holds an interface exactly if it was set up and not released since. */
  lemma {:induction false} BoundExactly<W, M>(trace: seq<Event<W, M>>)
    requires Legal(trace)
    ensures Run(trace).bound <==> EverBound(trace)
  {
    if trace != [] {
      BoundExactly(Before(trace));
      BoundStep(trace);
      RunKeepsInv(Before(trace));
      StepManager(Run(Before(trace)), Last(trace));
    }
  }

  lemma {:induction false} ModelsExactly<W, M>(trace: seq<Event<W, M>>, m: M)
    requires Legal(trace)
    ensures m in Run(trace).models <==> exists i | 0 <= i < |trace| :: trace[i] == ModelCreated(m)
  {
    if trace != [] {
      ModelsExactly(Before(trace), m);
      RunKeepsInv(Before(trace));
      StepRows(Run(Before(trace)), Last(trace));
      assert forall j | 0 <= j < |trace| - 1 :: Before(trace)[j] == trace[j];
      assert trace[|trace| - 1] == Last(trace);
    }
  }

  // ---------- Which window is active ----------

  /** The latest active flag the compositor announced for w since w was created. */
  ghost function Flag<W, M>(trace: seq<Event<W, M>>, w: W): bool {
    if trace == [] then false
    else
      match Last(trace)
      case StateChanged(u, active) => if u == w then active else Flag(Before(trace), w)
      case Created(u) => u != w && Flag(Before(trace), w)
      case _ => Flag(Before(trace), w)
  }

  /** The i-th event of the run turns its window from inactive to active. */
  ghost predicate Rises<W, M>(trace: seq<Event<W, M>>, i: nat)
    requires i < |trace|
  {
    trace[i].StateChanged? && trace[i].active && !Flag(trace[..i], trace[i].w)
  }

  predicate Ends<W(==), M>(e: Event<W, M>, w: W) {
    match e
    case StateChanged(u, active) => u == w && !active
    case Unmapped(u) => u == w
    case Destroyed(u) => u == w
    case _ => false
  }

  ghost predicate RoseAt<W, M>(trace: seq<Event<W, M>>, w: W, i: nat)
    requires i < |trace|
  {
    && Rises(trace, i) && trace[i].w == w
    && forall j | i < j < |trace| :: !Rises(trace, j) && !Ends(trace[j], w)
  }

  /** w made the latest transition to active of the whole run and has not left since. */
  ghost predicate RoseLast<W, M>(trace: seq<Event<W, M>>, w: W) {
    exists i | 0 <= i < |trace| :: RoseAt(trace, w, i)
  }

  lemma {:induction false} FlagIsActive<W, M>(trace: seq<Event<W, M>>, w: W)
    requires Legal(trace) && w in Run(trace).win
    ensures Run(trace).win[w].active == Flag(trace, w)
  {
    if trace != [] {
      var s := Run(Before(trace));
      RunKeepsInv(Before(trace));
      StepFlags(s, Last(trace));
      if w in s.win {
        FlagIsActive(Before(trace), w);
      }
    }
  }

  lemma RisesPrefix<W, M>(trace: seq<Event<W, M>>, i: nat)
    requires trace != [] && i < |trace| - 1
    ensures Rises(Before(trace), i) == Rises(trace, i)
  {
    assert Before(trace)[..i] == trace[..i];
  }

  /** One more event either makes its own rise the last one, or keeps or ends the previous one. */
  lemma RoseLastStep<W, M>(trace: seq<Event<W, M>>, w: W)
    requires trace != []
    ensures RoseLast(trace, w) <==>
      if Rises(trace, |trace| - 1) then Last(trace).w == w
      else RoseLast(Before(trace), w) && !Ends(Last(trace), w)
  {
    var n := |trace| - 1;
    forall i | 0 <= i < n ensures Rises(Before(trace), i) == Rises(trace, i) {
      RisesPrefix(trace, i);
    }
    if Rises(trace, n) && trace[n].w == w {
      assert RoseAt(trace, w, n);
    }
    if RoseLast(trace, w) && !Rises(trace, n) {
      var i :| 0 <= i < |trace| && RoseAt(trace, w, i);
      assert RoseAt(Before(trace), w, i);
    }
    if !Rises(trace, n) && RoseLast(Before(trace), w) && !Ends(Last(trace), w) {
      var i :| 0 <= i < n && RoseAt(Before(trace), w, i);
      assert RoseAt(trace, w, i);
    }
  }

  /** On every run, activeWindow() is w exactly when w made the latest inactive-to-active transition
      and has since neither gone inactive nor been unmapped nor been destroyed. */
  lemma {:induction false} ActiveWindowExactly<W, M>(trace: seq<Event<W, M>>, w: W)
    requires Legal(trace)
    ensures Run(trace).active == Some(w) <==> RoseLast(trace, w)
  {
    if trace != [] {
      var s, e := Run(Before(trace)), Last(trace);
      ActiveWindowExactly(Before(trace), w);
      RoseLastStep(trace, w);
      RunKeepsInv(Before(trace));
      StepActive(s, e);
      if e.StateChanged? {
        FlagIsActive(Before(trace), e.w);
      }
    }
  }

  /** The early return for a window that is already the active one is never taken: when the turn of the
      manager's slot comes in the emission for a window that just became active, whatever slots ran
      before it, another window or none is active. */
  lemma {:induction false} AlreadyActiveUnreachable<W, M>(trace: seq<Event<W, M>>, w: W, n: nat)
    requires Legal(trace) && w in Run(trace).win && !Run(trace).win[w].active
    requires n < |Run(trace).win[w].slots| && Run(trace).win[w].slots[n] == ManagerSlot
    ensures var s := Run(trace);
            var raised := s.(win := s.win[w := s.win[w].(active := true)]);
      EmitActive(raised, w, s.win[w].slots[..n]).active == s.active != Some(w)
  {
    var s := Run(trace);
    RunKeepsInv(trace);
    var slots := s.win[w].slots;
    assert SlotsOk(s.win, w);
    SplitAt(slots, n);
    assert multiset(slots) == multiset(slots[..n]) + multiset([ManagerSlot]) + multiset(slots[n + 1..]);
    assert ManagerSlot !in multiset(slots[..n]);
    assert forall x | x in slots[..n] :: x in slots;
    ActivePrefix(s.(win := s.win[w := s.win[w].(active := true)]), w, slots[..n]);
  }

  // ---------- Parents ----------

  /** On every run no parent is unmapped, and each child is subscribed to its parent once and to no other window. */
  lemma {:induction false} ParentsAreMapped<W, M>(trace: seq<Event<W, M>>, c: W, u: W)
    requires Legal(trace) && c in Run(trace).win && u in Run(trace).win
    ensures var win := Run(trace).win;
      && (win[c].parent == Some(u) ==> !win[u].unmapped)
      && win[c].connection == win[c].parent
      && multiset(win[u].slots)[ChildSlot(c)] == if win[c].parent == Some(u) then 1 else 0
  {
    var win := Run(trace).win;
    RunKeepsInv(trace);
    assert ChildOk(win, c);
    ChildSlots(win, u, c);
    assert ChildSlot(c) in multiset(win[u].slots) <==> ChildSlot(c) in win[u].slots;
  }

  lemma ParentKept<W, M>(s: State<W, M>, e: Event<W, M>, c: W)
    requires Inv(s) && Enabled(s, e) && c in s.win
    requires !e.ParentWindow? && !e.Unmapped? && !e.Destroyed?
    ensures var t := Step(s, e);
      c in t.win && t.win[c].parent == s.win[c].parent && t.win[c].parentSignals == s.win[c].parentSignals
  {
    match e
    case StateChanged(w, active) =>
      if s.win[w].active != active { StateChangedFrame(s, w, active); }
    case InitialState(w) => CreatedSignalEffect(s, w, s.order);
    case ModelCreated(m) =>
      SnapshotEffect(s.(order := s.order + [m], models := s.models[m := Model([], [])]), m, s.windows);
    case Released => ReleasedSignalEffect(s, s.order);
    case _ =>
  }

  /** The parent of c after an event, from the state before. */
  function NextParent<W, M>(s: State<W, M>, e: Event<W, M>, c: W): Option<W>
    requires c in s.win
  {
    match e
    case ParentWindow(w, p) =>
      if w != c then s.win[c].parent
      else if p.Some? && p.value in s.win && !s.win[p.value].unmapped then p else None
    case Unmapped(w) => if s.win[c].parent == Some(w) then None else s.win[c].parent
    case Destroyed(w) => if s.win[c].parent == Some(w) then None else s.win[c].parent
    case _ => s.win[c].parent
  }

  ghost predicate ParentAfter<W, M>(s: State<W, M>, e: Event<W, M>, c: W, t: State<W, M>)
    requires c in s.win
  {
    && c in t.win && t.win[c].parent == NextParent(s, e, c)
    && t.win[c].parentSignals
      == s.win[c].parentSignals + (if !e.Destroyed? && t.win[c].parent != s.win[c].parent then 1 else 0)
  }

  lemma ParentWindowParent<W, M>(s: State<W, M>, w: W, p: Option<W>, c: W)
    requires Inv(s) && w in s.win && c in s.win
    ensures ParentAfter(s, ParentWindow(w, p), c, OnParentWindow(s, w, p))
  {
    SetParentFields(s.win, w, Lookup(s, p), c);
  }

  lemma UnmappedParent<W, M>(s: State<W, M>, w: W, c: W)
    requires Inv(s) && w in s.win && c in s.win
    ensures ParentAfter(s, Unmapped(w), c, OnUnmapped(s, w))
  {
    UnmapClearsChildren(s, w);
    assert ChildReleased(s.win[c], OnUnmapped(s, w).win[c], w, c == w);
  }

  lemma BereftParent<W, M>(s: State<W, M>, w: W, c: W, t: State<W, M>)
    requires w in s.win && c in s.win && c != w && t.win == BereftOf(s.win, w)
    ensures ParentAfter(s, Destroyed(w), c, t)
  {
    assert t.win[c] == Bereft(s.win[c], w);
  }

  lemma DestroyedParent<W, M>(s: State<W, M>, w: W, c: W)
    requires Inv(s) && w in s.win && c in s.win && c != w
    ensures ParentAfter(s, Destroyed(w), c, OnDestroyed(s, w))
  {
    var t := OnDestroyed(s, w);
    assert t.win == BereftOf(s.win, w) by { DestroyedEffect(s, w); }
    BereftParent(s, w, c, t);
  }

  /** The parent of a window changes by events that name the window or the parent, and the number of
      notifications says which changes are announced. */
  lemma StepParent<W, M>(s: State<W, M>, e: Event<W, M>, c: W)
    requires Inv(s) && Enabled(s, e) && c in s.win && e != Destroyed(c)
    ensures ParentAfter(s, e, c, Step(s, e))
  {
    match e
    case ParentWindow(w, p) => ParentWindowParent(s, w, p, c);
    case Unmapped(w) => UnmappedParent(s, w, c);
    case Destroyed(w) => DestroyedParent(s, w, c);
    case _ => ParentKept(s, e, c);
  }

  /** parentWindowChanged accompanies every change of a window's parent, and nothing else, with one
      exception: a parent that is deleted while still mapped disappears silently. */
  lemma ParentChangesAreAnnounced<W, M>(s: State<W, M>, e: Event<W, M>, c: W)
    requires Inv(s) && Enabled(s, e) && c in s.win && e != Destroyed(c)
    ensures var t := Step(s, e);
      c in t.win
      && (t.win[c].parentSignals == s.win[c].parentSignals + (if t.win[c].parent != s.win[c].parent then 1 else 0)
          <==> !(e.Destroyed? && s.win[c].parent == Some(e.w)))
  {
    StepParent(s, e, c);
  }

  /** p was created and has since been neither unmapped nor destroyed. */
  ghost predicate Mapped<W, M>(trace: seq<Event<W, M>>, p: W) {
    exists i | 0 <= i < |trace| :: MappedSince(trace, p, i)
  }

  ghost predicate MappedSince<W, M>(trace: seq<Event<W, M>>, p: W, i: nat)
    requires i < |trace|
  {
    trace[i] == Created(p) && forall j | i < j < |trace| :: trace[j] != Unmapped(p) && trace[j] != Destroyed(p)
  }

  lemma MappedStep<W, M>(trace: seq<Event<W, M>>, p: W)
    requires trace != []
    ensures Mapped(trace, p) <==>
      var e := Last(trace); e == Created(p) || (Mapped(Before(trace), p) && e != Unmapped(p) && e != Destroyed(p))
  {
    var n, e := |trace| - 1, Last(trace);
    forall i | 0 <= i < n
      ensures MappedSince(trace, p, i) <==> MappedSince(Before(trace), p, i) && e != Unmapped(p) && e != Destroyed(p)
    {
      assert forall j | 0 <= j < n :: Before(trace)[j] == trace[j];
      assert trace[n] == e;
    }
    assert MappedSince(trace, p, n) <==> e == Created(p);
  }

  lemma {:induction false} MappedExactly<W, M>(trace: seq<Event<W, M>>, p: W)
    requires Legal(trace)
    ensures p in Run(trace).win && !Run(trace).win[p].unmapped <==> Mapped(trace, p)
  {
    if trace != [] {
      MappedExactly(Before(trace), p);
      MappedStep(trace, p);
      RunKeepsInv(Before(trace));
      StepFlags(Run(Before(trace)), Last(trace));
    }
  }

  /** The event takes p away from c as its parent, or names another parent of c. */
  predicate Parts<W(==), M>(e: Event<W, M>, c: W, p: W) {
    match e
    case ParentWindow(w, _) => w == c
    case Unmapped(w) => w == p
    case Destroyed(w) => w == p || w == c
    case _ => false
  }

  /** The i-th event gives c the parent p, which is mapped then, and no later event parts them. */
  ghost predicate AdoptedSince<W, M>(trace: seq<Event<W, M>>, c: W, p: W, i: nat)
    requires i < |trace|
  {
    && trace[i] == ParentWindow(c, Some(p)) && Mapped(trace[..i], p)
    && forall j | i < j < |trace| :: !Parts(trace[j], c, p)
  }

  ghost predicate Adopted<W, M>(trace: seq<Event<W, M>>, c: W, p: W) {
    exists i | 0 <= i < |trace| :: AdoptedSince(trace, c, p, i)
  }

  lemma AdoptedStep<W, M>(trace: seq<Event<W, M>>, c: W, p: W)
    requires trace != []
    ensures Adopted(trace, c, p) <==>
      || (Last(trace) == ParentWindow(c, Some(p)) && Mapped(Before(trace), p))
      || (Adopted(Before(trace), c, p) && !Parts(Last(trace), c, p))
  {
    var n, e := |trace| - 1, Last(trace);
    forall i | 0 <= i < n
      ensures AdoptedSince(trace, c, p, i) <==> AdoptedSince(Before(trace), c, p, i) && !Parts(e, c, p)
    {
      assert Before(trace)[..i] == trace[..i];
      assert forall j | 0 <= j < n :: Before(trace)[j] == trace[j];
      assert trace[n] == e;
    }
    assert AdoptedSince(trace, c, p, n) <==> e == ParentWindow(c, Some(p)) && Mapped(Before(trace), p);
  }

  /** On every run p is the parent of c exactly when the latest parent event of c named p while p was
      mapped, and since then p has been neither unmapped nor destroyed and c has not been destroyed. */
  lemma {:induction false} ParentExactly<W, M>(trace: seq<Event<W, M>>, c: W, p: W)
    requires Legal(trace)
    ensures c in Run(trace).win && Run(trace).win[c].parent == Some(p) <==> Adopted(trace, c, p)
  {
    if trace != [] {
      var s, e := Run(Before(trace)), Last(trace);
      ParentExactly(Before(trace), c, p);
      AdoptedStep(trace, c, p);
      RunKeepsInv(Before(trace));
      MappedExactly(Before(trace), p);
      StepFlags(s, e);
      if c in s.win && e != Destroyed(c) { StepParent(s, e, c); }
    }
  }

  lemma MappedParent<W, M>(c: W, p: W)
    requires c != p
    ensures var trace: seq<Event<W, M>> := [Setup, Created(p), Created(c), ParentWindow(c, Some(p))];
      && Legal(trace) && p in Run(trace).win && c in Run(trace).win && Run(trace).win[c].parent == Some(p)
  {
    var t2: seq<Event<W, M>> := [Setup, Created(p)];
    var t3: seq<Event<W, M>> := [Setup, Created(p), Created(c)];
    OneWindow<W, M>(p);
    Extend(t2, Created(c));
    assert t2 + [Created(c)] == t3;
    Extend(t3, ParentWindow(c, Some(p)));
    assert t3 + [ParentWindow(c, Some(p))] == [Setup, Created(p), Created(c), ParentWindow(c, Some(p))];
    RunKeepsInv(t3);
    StepParent(Run(t3), ParentWindow(c, Some(p)), c);
    ExtendRun(t3, ParentWindow(c, Some(p)));
  }

  /** A run on which a window loses its mapped parent without a notification. */
  lemma ParentCanVanishSilently<W, M>(c: W, p: W)
    requires c != p
    ensures var trace: seq<Event<W, M>> := [Setup, Created(p), Created(c), ParentWindow(c, Some(p))];
            var more := trace + [Destroyed(p)];
      && Legal(trace) && Legal(more)
      && c in Run(trace).win && Run(trace).win[c].parent == Some(p)
      && c in Run(more).win && Run(more).win[c].parent == None
      && Run(more).win[c].parentSignals == Run(trace).win[c].parentSignals
  {
    var trace: seq<Event<W, M>> := [Setup, Created(p), Created(c), ParentWindow(c, Some(p))];
    MappedParent<W, M>(c, p);
    ExtendRun(trace, Destroyed(p));
    RunKeepsInv(trace);
    StepParent(Run(trace), Destroyed(p), c);
  }

  /** The ordinary deletion, which follows the unmapping, never takes a parent away. */
  lemma DeferredDeletionIsSilent<W, M>(s: State<W, M>, w: W, c: W)
    requires Inv(s) && w in s.win && s.win[w].unmapped && c in s.win && c != w
    ensures var t := Step(s, Destroyed(w)); c in t.win && t.win[c].parent == s.win[c].parent
  {
    assert ChildOk(s.win, c);
    DestroyedEffect(s, w);
  }

  // ---------- List models ----------

  /** For any number of models: a view that replays the announced changes shows exactly the model's
      rows and every announced row was in range; rows never repeat and the manager still lists them. */
  lemma {:induction false} ModelsMirrorTheManager<W, M>(trace: seq<Event<W, M>>, m: M)
    requires Legal(trace) && m in Run(trace).models
    ensures var s := Run(trace);
      && Replay(s.models[m].log) == Some(s.models[m].rows)
      && NoDup(s.models[m].rows)
      && forall w | w in s.models[m].rows :: w in s.windows
  {
    RunKeepsInv(trace);
    assert ModelOk(Run(trace).models[m]);
  }

  /** The state just before the i-th event. */
  ghost function StateAt<W, M>(trace: seq<Event<W, M>>, i: nat): State<W, M>
    requires Legal(trace) && i <= |trace|
  {
    LegalPrefix(trace, i);
    Run(trace[..i])
  }

  lemma {:induction false} StateAtBefore<W, M>(trace: seq<Event<W, M>>, i: nat)
    requires trace != [] && Legal(trace) && i < |trace|
    ensures StateAt(Before(trace), i) == StateAt(trace, i)
    ensures StateAt(trace, |trace| - 1) == Run(Before(trace))
  {
    assert Before(trace)[..i] == trace[..i];
    assert trace[..|trace| - 1] == Before(trace);
  }

  lemma UnmappedStaysOutOf<W, M>(s: State<W, M>, e: Event<W, M>, t: State<W, M>, m: M, w: W)
    requires (e.InitialState? ==> e.w in s.win) && RowsAfter(s, e, t) && FlagsAfter(s, e, t)
    requires m in s.models && e != Created(w) && e != ModelCreated(m)
    requires e == Unmapped(w) || (w !in s.models[m].rows && (w in s.win ==> s.win[w].unmapped))
    ensures m in t.models && w !in t.models[m].rows && (w in t.win ==> t.win[w].unmapped)
  {
    if e.Unmapped? || e.Destroyed? {
      WithoutMembers(s.models[m].rows, e.w);
    }
  }

  lemma UnmappedStaysOut<W, M>(s: State<W, M>, e: Event<W, M>, m: M, w: W)
    requires Inv(s) && Enabled(s, e) && m in s.models && e != Created(w)
    requires e == Unmapped(w) || (w !in s.models[m].rows && (w in s.win ==> s.win[w].unmapped))
    ensures var t := Step(s, e);
      m in t.models && w !in t.models[m].rows && (w in t.win ==> t.win[w].unmapped)
  {
    StepRows(s, e);
    StepFlags(s, e);
    UnmappedStaysOutOf(s, e, Step(s, e), m, w);
  }

  /** A window that unmaps while a model exists never reappears in it, whatever follows: repeated
      initial state events, resets, or a state change. */
  lemma {:induction false} UnmappedNeverReappears<W, M>(trace: seq<Event<W, M>>, n: nat, m: M, w: W)
    requires Legal(trace) && n < |trace| && trace[n] == Unmapped(w) && m in StateAt(trace, n).models
    requires forall i | n < i < |trace| :: trace[i] != Created(w)
    ensures m in Run(trace).models && w !in Run(trace).models[m].rows
    ensures w in Run(trace).win ==> Run(trace).win[w].unmapped
  {
    StateAtBefore(trace, n);
    if n < |trace| - 1 {
      UnmappedNeverReappears(Before(trace), n, m, w);
    }
    RunKeepsInv(Before(trace));
    UnmappedStaysOut(Run(Before(trace)), Last(trace), m, w);
  }

  /** The event takes w out of every model. */
  predicate Drops<W(==), M>(s: State<W, M>, e: Event<W, M>, w: W) {
    match e
    case Unmapped(u) => u == w
    case Destroyed(u) => u == w
    case Released => s.bound
    case _ => false
  }

  ghost predicate CreatedStale<W, M>(s: State<W, M>, e: Event<W, M>, m: M, w: W) {
    e == ModelCreated(m) && w in s.win && s.win[w].unmapped
  }

  /** For every event of the run: did it construct m while w was already unmapped but not yet
      deleted, and did it take w out of every model? */
  ghost function Marks<W, M>(trace: seq<Event<W, M>>, m: M, w: W): (marks: seq<(bool, bool)>)
    requires Legal(trace)
    ensures |marks| == |trace|
  {
    if trace == [] then []
    else
      var s, e := Run(Before(trace)), Last(trace);
      Marks(Before(trace), m, w) + [(CreatedStale(s, e, m, w), Drops(s, e, w))]
  }

  ghost predicate MarkedSince(marks: seq<(bool, bool)>) {
    exists i | 0 <= i < |marks| :: marks[i].0 && forall j | i < j < |marks| :: !marks[j].1
  }

  /** m was constructed between the unmapping and the deletion of w, and no event took w out since. */
  ghost predicate Stale<W, M>(trace: seq<Event<W, M>>, m: M, w: W)
    requires Legal(trace)
  {
    MarkedSince(Marks(trace, m, w))
  }

  lemma MarkedSinceStep(marks: seq<(bool, bool)>, x: (bool, bool))
    ensures MarkedSince(marks + [x]) <==> x.0 || (MarkedSince(marks) && !x.1)
  {
    var more := marks + [x];
    assert forall i | 0 <= i < |marks| :: more[i] == marks[i];
    assert more[|marks|] == x;
    if MarkedSince(more) && !x.0 {
      var i :| 0 <= i < |more| && more[i].0 && forall j | i < j < |more| :: !more[j].1;
      assert i < |marks| && marks[i].0;
      assert forall j | i < j < |marks| :: !more[j].1;
    }
  }

  lemma UnmappedRowStep<W, M>(s: State<W, M>, e: Event<W, M>, m: M, w: W)
    requires Inv(s) && Enabled(s, e) && w in s.win && e != Destroyed(w)
    requires s.win[w].unmapped || e == Unmapped(w)
    requires m in s.models || e == ModelCreated(m)
    ensures var t := Step(s, e);
      m in t.models
      && (w in t.models[m].rows
          <==> CreatedStale(s, e, m, w) || (m in s.models && w in s.models[m].rows && !Drops(s, e, w)))
  {
    StepRows(s, e);
    if m in s.models && (e.Unmapped? || e.Destroyed?) {
      WithoutMembers(s.models[m].rows, e.w);
    }
  }

  /** A model can list an unmapped window: exactly when it was constructed between the window's
      unmapping and its deletion, and nothing has taken the window out since. */
  lemma {:induction false} UnmappedListedExactly<W, M>(trace: seq<Event<W, M>>, m: M, w: W)
    requires Legal(trace)
    requires m in Run(trace).models && w in Run(trace).win && Run(trace).win[w].unmapped
    ensures w in Run(trace).models[m].rows <==> Stale(trace, m, w)
  {
    var s, e := Run(Before(trace)), Last(trace);
    RunKeepsInv(Before(trace));
    StepFlags(s, e);
    StepRows(s, e);
    MarkedSinceStep(Marks(Before(trace), m, w), (CreatedStale(s, e, m, w), Drops(s, e, w)));
    UnmappedRowStep(s, e, m, w);
    if m in s.models && e != Unmapped(w) {
      UnmappedListedExactly(Before(trace), m, w);
    }
  }

  // ---------- What list models announce when a window changes ----------

  /** When the active flag of w changes, every model announces the row of w, or the invalid index
      if it does not list w, once for each of its addWindow calls that added w. */
  lemma {:induction false} RelayedRows<W, M>(trace: seq<Event<W, M>>, w: W, active: bool, m: M)
    requires Legal(trace) && w in Run(trace).win && Run(trace).win[w].active != active && m in Run(trace).models
    ensures var s := Run(trace);
            var rows := s.models[m].rows;
            var row := IndexOf(rows, w);
            var n := multiset(s.win[w].slots)[ModelSlot(m)];
      && m in Step(s, StateChanged(w, active)).models
      && Step(s, StateChanged(w, active)).models[m] == Model(rows, s.models[m].log + Times(n, DataChanged(row)))
      && (w in rows ==> 0 <= row < |rows| && rows[row] == w && n >= 1)
      && (w !in rows ==> row == -1)
  {
    var s := Run(trace);
    RunKeepsInv(trace);
    StateChangedEffect(s, w, active);
    assert w in s.models[m].rows ==> ModelSlot(m) in multiset(s.win[w].slots);
  }

  lemma AddWindowSlots<W, M>(s: State<W, M>, n: M, w: W, m: M)
    requires w in s.win && n in s.models
    ensures multiset(AddWindow(s, n, w).win[w].slots)[ModelSlot(m)]
      == multiset(s.win[w].slots)[ModelSlot(m)] + (if n == m && w !in s.models[n].rows then 1 else 0)
  {
  }

  /** The windowCreated signal leaves one more connection to every model that did not list the window. */
  lemma {:induction false} CreatedSignalSlots<W, M>(s: State<W, M>, w: W, order: seq<M>, m: M)
    requires w in s.win && NoDup(order) && (forall n | n in order :: n in s.models) && m in s.models
    ensures multiset(EmitCreated(s, w, order).win[w].slots)[ModelSlot(m)]
      == multiset(s.win[w].slots)[ModelSlot(m)] + (if m in order && w !in s.models[m].rows then 1 else 0)
  {
    if order != [] {
      var before, n := order[..|order| - 1], order[|order| - 1];
      assert order == before + [n] && n !in before;
      CreatedSignalSlots(s, w, before, m);
      CreatedSignalEffect(s, w, before);
      AddWindowSlots(EmitCreated(s, w, before), n, w, m);
    }
  }

  /** A release of the manager empties the models but leaves their connections to the windows. If a
      listed window announces its initial state again, it is listed again and connected once more, so
      that the model from then on announces each of its changes one more time. */
  lemma ResetRepeatsRelays<W, M>(s: State<W, M>, w: W, m: M)
    requires Inv(s) && s.bound && m in s.models && w in s.models[m].rows && !s.win[w].unmapped
    ensures var t := OnInitialState(OnReleased(s), w);
      && m in t.models && w in t.win && w in t.models[m].rows
      && multiset(t.win[w].slots)[ModelSlot(m)] == multiset(s.win[w].slots)[ModelSlot(m)] + 1
      && multiset(t.win[w].slots)[ModelSlot(m)] >= 2
  {
    ReleasedSignalEffect(s, s.order);
    ReleasedKeepsInv(s);
    var r := OnReleased(s);
    CreatedSignalEffect(r, w, r.order);
    CreatedSignalSlots(r, w, r.order, m);
    assert ModelSlot(m) in multiset(s.win[w].slots);
  }

  lemma {:induction false} Extend<W, M>(trace: seq<Event<W, M>>, e: Event<W, M>)
    requires Legal(trace) && Enabled(Run(trace), e)
    ensures Legal(trace + [e])
    ensures var s, t := Run(trace), Run(trace + [e]);
      && FlagsAfter(s, e, t)
      && t.models.Keys == (if e.ModelCreated? then s.models.Keys + {e.m} else s.models.Keys)
      && t.bound == (e.Setup? || (s.bound && !e.Released?))
      && (e.ModelCreated? ==> t.models[e.m].rows == s.windows)
  {
    assert Before(trace + [e]) == trace;
    RunKeepsInv(trace);
    StepFlags(Run(trace), e);
    StepRows(Run(trace), e);
    StepManager(Run(trace), e);
  }

  lemma OneWindow<W, M>(w: W)
    ensures var trace: seq<Event<W, M>> := [Setup, Created(w)];
      && Legal(trace) && Run(trace).windows == [w] && Run(trace).win.Keys == {w} && Run(trace).models.Keys == {}
      && Run(trace).bound && Run(trace).win[w].slots == [ManagerSlot]
  {
    var t0: seq<Event<W, M>> := [];
    var t1: seq<Event<W, M>> := [Setup];
    Extend(t0, Setup);
    assert t0 + [Setup] == t1;
    Extend(t1, Created(w));
    assert t1 + [Created(w)] == [Setup, Created(w)];
  }

  lemma OneUnmappedWindow<W, M>(w: W)
    ensures var trace: seq<Event<W, M>> := [Setup, Created(w), Unmapped(w)];
      Legal(trace) && Run(trace).windows == [w] && Run(trace).win.Keys == {w} && Run(trace).models.Keys == {}
      && Run(trace).win[w].unmapped
  {
    var t2: seq<Event<W, M>> := [Setup, Created(w)];
    OneWindow<W, M>(w);
    Extend(t2, Unmapped(w));
    assert t2 + [Unmapped(w)] == [Setup, Created(w), Unmapped(w)];
  }

  /** A run in which a model lists an unmapped window. */
  lemma UnmappedCanBeListed<W, M>(w: W, m: M)
    ensures var trace: seq<Event<W, M>> := [Setup, Created(w), Unmapped(w), ModelCreated(m)];
      && Legal(trace) && m in Run(trace).models && w in Run(trace).win
      && Run(trace).win[w].unmapped && w in Run(trace).models[m].rows
  {
    var t3: seq<Event<W, M>> := [Setup, Created(w), Unmapped(w)];
    OneUnmappedWindow<W, M>(w);
    Extend(t3, ModelCreated(m));
    assert t3 + [ModelCreated(m)] == [Setup, Created(w), Unmapped(w), ModelCreated(m)];
  }

  lemma SnapshotOfOne<W, M>(s: State<W, M>, m: M, w: W)
    requires s.windows == [w] && w in s.win && ModelSlot(m) !in s.win[w].slots
    ensures var t := OnModelCreated(s, m);
      w in t.win && multiset(t.win[w].slots)[ModelSlot(m)] == 1
  {
    var s' := s.(order := s.order + [m], models := s.models[m := Model([], [])]);
    assert [w][..0] == [];
    assert Snapshot(s', m, [w]) == AddWindow(Snapshot(s', m, []), m, w);
    AddWindowSlots(s', m, w, m);
  }

  lemma OneModel<W, M>(w: W, m: M)
    ensures var trace: seq<Event<W, M>> := [Setup, Created(w), ModelCreated(m)];
      && Legal(trace) && Run(trace).bound
      && m in Run(trace).models && Run(trace).models[m].rows == [w]
      && w in Run(trace).win && !Run(trace).win[w].unmapped
      && multiset(Run(trace).win[w].slots)[ModelSlot(m)] == 1
  {
    var t2: seq<Event<W, M>> := [Setup, Created(w)];
    OneWindow<W, M>(w);
    Extend(t2, ModelCreated(m));
    ExtendRun(t2, ModelCreated(m));
    assert t2 + [ModelCreated(m)] == [Setup, Created(w), ModelCreated(m)];
    SnapshotOfOne(Run(t2), m, w);
  }

  lemma {:induction false} ReleaseThenInitial<W, M>(trace: seq<Event<W, M>>, w: W)
    requires Legal(trace) && w in Run(trace).win && w in OnReleased(Run(trace)).win
    ensures Legal(trace + [Released, InitialState(w)])
    ensures Run(trace + [Released, InitialState(w)]) == OnInitialState(OnReleased(Run(trace)), w)
  {
    ExtendRun(trace, Released);
    ExtendRun(trace + [Released], InitialState(w));
    assert trace + [Released] + [InitialState(w)] == trace + [Released, InitialState(w)];
  }

  /** A run after which a model is connected twice to the one window it lists. */
  lemma RelaysCanRepeat<W, M>(w: W, m: M)
    ensures var trace: seq<Event<W, M>> := [Setup, Created(w), ModelCreated(m), Released, InitialState(w)];
      && Legal(trace) && m in Run(trace).models && w in Run(trace).win
      && w in Run(trace).models[m].rows
      && multiset(Run(trace).win[w].slots)[ModelSlot(m)] == 2
  {
    var t3: seq<Event<W, M>> := [Setup, Created(w), ModelCreated(m)];
    OneModel<W, M>(w, m);
    RunKeepsInv(t3);
    ResetRepeatsRelays(Run(t3), w, m);
    ReleasedSignalEffect(Run(t3), Run(t3).order);
    ReleaseThenInitial(t3, w);
    assert t3 + [Released, InitialState(w)] == [Setup, Created(w), ModelCreated(m), Released, InitialState(w)];
  }
}
