/**
 * PlasmaWindowManagement, PlasmaWindow and PlasmaWindowModel as objects updated in place.
 *
 * Each callback is proved to take exactly the step WindowState gives its event. Signal emission is
 * a loop over the connections that existed when it started; the slots it runs change other objects.
 */
module WindowTracking {
  import opened Lists
  import opened WindowState
  import opened WindowRuns

  type Connection = Slot<PlasmaWindow, PlasmaWindowModel>
  type WindowView = Window<PlasmaWindow, PlasmaWindowModel>

  function Opt(w: PlasmaWindow?): Option<PlasmaWindow> {
    if w == null then None else Some(w)
  }

  ghost function Views(alive: set<PlasmaWindow>): Windows<PlasmaWindow, PlasmaWindowModel>
    reads alive
  {
    map w | w in alive :: w.View()
  }

  /** No window is subscribed to one that does not exist. */
  ghost predicate Closed(alive: set<PlasmaWindow>)
    reads alive
  {
    forall w | w in alive :: w.parentWindowUnmappedConnection != null ==> w.parentWindowUnmappedConnection in alive
  }

  class PlasmaWindow {
    var active: bool
    var unmapped: bool
    var parentWindow: PlasmaWindow?
    var parentWindowUnmappedConnection: PlasmaWindow?   // the sender, or null for no connection
    var slots: seq<Connection>                          // connections to this window's signals
    ghost var parentWindowChanged: nat                  // emissions so far

    ghost function View(): WindowView
      reads this
    {
      Window(active, unmapped, Opt(parentWindow), Opt(parentWindowUnmappedConnection), parentWindowChanged, slots)
    }

    constructor ()
      ensures View() == Window(false, false, None, None, 0, [ManagerSlot])
    {
      active, unmapped := false, false;
      parentWindow, parentWindowUnmappedConnection := null, null;
      slots, parentWindowChanged := [ManagerSlot], 0;
    }

    method Unsubscribe(ghost alive: set<PlasmaWindow>)
      requires this in alive && Closed(alive)
      modifies alive`slots
      ensures Views(alive) == Disconnect(old(Views(alive)), this)
    {
      var sender := parentWindowUnmappedConnection;
      if sender != null {
        sender.slots := Without(sender.slots, ChildSlot(this));
      }
    }

    method Subscribe(sender: PlasmaWindow, ghost alive: set<PlasmaWindow>)
      requires this in alive && sender in alive
      modifies sender`slots
      ensures Views(alive) == Connect(old(Views(alive)), this, Some(sender))
    {
      sender.slots := sender.slots + [ChildSlot(this)];
    }

    method StoreParent(next: PlasmaWindow?, ghost alive: set<PlasmaWindow>)
      requires this in alive
      modifies this`parentWindow, this`parentWindowUnmappedConnection, this`parentWindowChanged
      ensures parentWindowUnmappedConnection == next
      ensures Views(alive) == AssignParent(old(Views(alive)), this, Opt(next))
    {
      var previous := parentWindow;
      parentWindow := next;
      parentWindowUnmappedConnection := next;
      if next != previous {
        parentWindowChanged := parentWindowChanged + 1;
      }
    }

    /** What happens to this window when w is destroyed. */
    method ForgetPeer(w: PlasmaWindow)
      modifies this
      ensures View() == Bereft(old(View()), w)
    {
      if parentWindow == w {
        parentWindow := null;
      }
      if parentWindowUnmappedConnection == w {
        parentWindowUnmappedConnection := null;
      }
      slots := Without(slots, ChildSlot(w));
    }

    method SetParentWindow(parent: PlasmaWindow?, ghost alive: set<PlasmaWindow>)
      requires this in alive && Closed(alive) && (parent != null ==> parent in alive)
      modifies alive
      ensures Closed(alive)
      ensures Views(alive) == SetParent(old(Views(alive)), this, Opt(parent))
    {
      Unsubscribe(alive);
      if parent != null && !parent.unmapped {
        Subscribe(parent, alive);
        StoreParent(parent, alive);
      } else {
        StoreParent(null, alive);
      }
    }
  }

  lemma {:induction false} EmitCreatedNext<W, M>(s: State<W, M>, w: W, order: seq<M>, i: nat)
    requires i < |order|
    ensures EmitCreated(s, w, order[..i + 1]) == AddWindow(EmitCreated(s, w, order[..i]), order[i], w)
  {
    assert order[..i + 1][..i] == order[..i];
  }

  lemma {:induction false} SnapshotNext<W, M>(s: State<W, M>, m: M, windows: seq<W>, i: nat)
    requires i < |windows|
    ensures Snapshot(s, m, windows[..i + 1]) == AddWindow(Snapshot(s, m, windows[..i]), m, windows[i])
  {
    assert windows[..i + 1][..i] == windows[..i];
  }

  lemma AddWindowParts<W, M>(s: State<W, M>, m: M, w: W, t: State<W, M>)
    requires w in s.win && m in s.models
    requires t == s.(win := t.win, models := s.models[m := AddRow(s.models[m], w)])
    requires t.win == if w in s.models[m].rows then s.win else SetSlots(s.win, w, s.win[w].slots + [ModelSlot(m)])
    ensures t == AddWindow(s, m, w)
  {
    if w in s.models[m].rows {
      assert s.models[m := s.models[m]] == s.models;
    }
  }

  method ForgetEverywhere(alive: set<PlasmaWindow>, w: PlasmaWindow)
    modifies alive
    ensures Views(alive - {w}) == BereftOf(old(Views(alive)), w)
  {
    ghost var before := Views(alive);
    var rest := alive;
    while rest != {}
      invariant rest <= alive
      invariant forall u | u in alive :: u.View() == if u in rest then before[u] else Bereft(before[u], w)
      decreases rest
    {
      var u :| u in rest;
      u.ForgetPeer(w);
      rest := rest - {u};
    }
  }

  class PlasmaWindowModel {
    var windows: seq<PlasmaWindow>
    ghost var log: seq<RowSignal<PlasmaWindow>>

    ghost function View(): Model<PlasmaWindow>
      reads this
    {
      Model(windows, log)
    }

    constructor ()
      ensures View() == Model([], [])
    {
      windows, log := [], [];
    }

    method AddWindow(window: PlasmaWindow, ghost alive: set<PlasmaWindow>)
      requires window in alive
      modifies this, window`slots
      ensures View() == AddRow(old(View()), window)
      ensures windows == if window in old(windows) then old(windows) else old(windows) + [window]
      ensures log == old(log) + if window in old(windows) then [] else [RowsInserted(|old(windows)|, window)]
      ensures Views(alive) ==
        if window in old(windows) then old(Views(alive))
        else SetSlots(old(Views(alive)), window, old(window.slots) + [ModelSlot(this)])
    {
      if IndexOf(windows, window) != -1 {
        return;
      }
      var count := |windows|;
      windows := windows + [window];
      log := log + [RowsInserted(count, window)];
      window.slots := window.slots + [ModelSlot(this)];
    }

    /** The removeWindow closure. */
    method RemoveWindow(window: PlasmaWindow)
      modifies this
      ensures View() == RemoveRow(old(View()), window)
      ensures log
        == old(log) + if window in old(windows) then [RowsRemoved(IndexOf(old(windows), window))] else []
    {
      var row := IndexOf(windows, window);
      if row != -1 {
        windows := RemoveAt(windows, row);
        log := log + [RowsRemoved(row)];
      }
    }

    method EmitDataChanged(window: PlasmaWindow)
      modifies this
      ensures View() == Relay(old(View()), window)
      ensures windows == old(windows) && log == old(log) + [DataChanged(IndexOf(windows, window))]
    {
      log := log + [DataChanged(IndexOf(windows, window))];
    }

    /** The slot for the manager's interfaceAboutToBeReleased. */
    method ResetRows()
      modifies this
      ensures View() == Reset(old(View()))
      ensures windows == [] && log == old(log) + [ModelReset]
    {
      windows := [];
      log := log + [ModelReset];
    }
  }

  class PlasmaWindowManagement {
    var bound: bool                       // whether a native interface is held
    var windows: seq<PlasmaWindow>
    var activeWindow: PlasmaWindow?
    var models: seq<PlasmaWindowModel>    // the models subscribed to this manager
    ghost var activeWindowChanged: nat    // emissions so far
    var alive: set<PlasmaWindow>          // the QObject children: windows not yet destroyed

    ghost function View(): State<PlasmaWindow, PlasmaWindowModel>
      reads this, alive, models
    {
      State(bound, windows, Opt(activeWindow), activeWindowChanged, Views(alive),
            models, map m | m in models :: m.View())
    }

    /** Every list and connection leads to an object that exists. */
    ghost predicate Intact()
      reads this, alive
    {
      && (forall w | w in windows :: w in alive)
      && Closed(alive)
      && (forall w | w in alive :: Reaches(w.slots))
    }

    ghost predicate Reaches(slots: seq<Connection>)
      reads this
    {
      forall x | x in slots ::
        (x.ChildSlot? ==> x.child in alive) && (x.ModelSlot? ==> x.model in models)
    }

    constructor ()
      ensures View() == Initial()
    {
      bound, windows, activeWindow, models := false, [], null, [];
      activeWindowChanged, alive := 0, {};
    }

    // ---------- Slots ----------

    /** The manager's unmapped closure. */
    method DropIfActive(w: PlasmaWindow)
      modifies this`activeWindow, this`activeWindowChanged
      ensures View() == DropActive(old(View()), w)
    {
      if activeWindow == w {
        activeWindow := null;
        activeWindowChanged := activeWindowChanged + 1;
      }
    }

    /** The manager's activeChanged closure. */
    method FollowIfActive(w: PlasmaWindow)
      requires w in alive
      modifies this`activeWindow, this`activeWindowChanged
      ensures View() == FollowActive(old(View()), w)
    {
      if w.active {
        if activeWindow == w {
          return;
        }
        activeWindow := w;
        activeWindowChanged := activeWindowChanged + 1;
      } else {
        DropIfActive(w);
      }
    }

    /** The child's closure on the unmapped signal of w. */
    method ReleaseChild(w: PlasmaWindow, child: PlasmaWindow)
      requires w in alive && child in alive && Closed(alive)
      modifies alive
      ensures Closed(alive)
      ensures View() == UnmappedSlot(old(View()), w, ChildSlot(child))
    {
      if ChildSlot(child) in w.slots {
        child.SetParentWindow(null, alive);
      }
    }

    /** The closures of a model on the unmapped and destroyed signals. */
    method DropRow(model: PlasmaWindowModel, w: PlasmaWindow)
      requires model in models
      modifies model
      ensures View() == old(View()).(models := old(View()).models[model := RemoveRow(old(View()).models[model], w)])
    {
      model.RemoveWindow(w);
    }

    /** The closure of a model on the activeChanged signal. */
    method RelayTo(model: PlasmaWindowModel, w: PlasmaWindow)
      requires model in models
      modifies model
      ensures View() == old(View()).(models := old(View()).models[model := Relay(old(View()).models[model], w)])
    {
      model.EmitDataChanged(w);
    }

    method RunUnmapped(w: PlasmaWindow, slot: Connection)
      requires w in alive && Closed(alive)
      requires slot.ChildSlot? ==> slot.child in alive
      requires slot.ModelSlot? ==> slot.model in models
      modifies this`activeWindow, this`activeWindowChanged, alive, models
      ensures Closed(alive)
      ensures View() == UnmappedSlot(old(View()), w, slot)
    {
      match slot
      case ManagerSlot => DropIfActive(w);
      case ChildSlot(child) => ReleaseChild(w, child);
      case ModelSlot(model) => DropRow(model, w);
    }

    method RunDestroyed(w: PlasmaWindow, slot: Connection)
      requires slot.ModelSlot? ==> slot.model in models
      modifies this`windows, this`activeWindow, this`activeWindowChanged, models
      ensures View() == DestroyedSlot(old(View()), w, slot)
    {
      match slot
      case ManagerSlot =>
        windows := Without(windows, w);
        DropIfActive(w);
      case ChildSlot(_) =>
      case ModelSlot(model) => DropRow(model, w);
    }

    method RunActiveChanged(w: PlasmaWindow, slot: Connection)
      requires w in alive
      requires slot.ModelSlot? ==> slot.model in models
      modifies this`activeWindow, this`activeWindowChanged, models
      ensures View() == ActiveSlot(old(View()), w, slot)
    {
      match slot
      case ManagerSlot => FollowIfActive(w);
      case ChildSlot(_) =>
      case ModelSlot(model) => RelayTo(model, w);
    }

    method AddTo(model: PlasmaWindowModel, w: PlasmaWindow)
      requires w in alive && model in models
      modifies model, w`slots
      ensures View() == AddWindow(old(View()), model, w)
    {
      ghost var s := View();
      model.AddWindow(w, alive);
      assert View().models == s.models[model := AddRow(s.models[model], w)];
      AddWindowParts(s, model, w, View());
    }

    method ResetModel(model: PlasmaWindowModel)
      requires model in models
      modifies model
      ensures View() == old(View()).(models := old(View()).models[model := Reset(old(View()).models[model])])
    {
      model.ResetRows();
    }

    // ---------- Emission ----------

    method TellUnmapped(w: PlasmaWindow, slots: seq<Connection>)
      requires w in alive && Closed(alive) && Reaches(slots)
      modifies this`activeWindow, this`activeWindowChanged, alive, models
      ensures View() == EmitUnmapped(old(View()), w, slots)
    {
      for i := 0 to |slots|
        invariant Closed(alive)
        invariant View() == EmitUnmapped(old(View()), w, slots[..i])
      {
        RunUnmapped(w, slots[i]);
        assert slots[..i + 1][..i] == slots[..i];
      }
      assert slots[..|slots|] == slots;
    }

    method TellDestroyed(w: PlasmaWindow, slots: seq<Connection>)
      requires Reaches(slots)
      modifies this`windows, this`activeWindow, this`activeWindowChanged, models
      ensures View() == EmitDestroyed(old(View()), w, slots)
    {
      for i := 0 to |slots|
        invariant View() == EmitDestroyed(old(View()), w, slots[..i])
      {
        RunDestroyed(w, slots[i]);
        assert slots[..i + 1][..i] == slots[..i];
      }
      assert slots[..|slots|] == slots;
    }

    method TellActiveChanged(w: PlasmaWindow, slots: seq<Connection>)
      requires w in alive && Reaches(slots)
      modifies this`activeWindow, this`activeWindowChanged, models
      ensures View() == EmitActive(old(View()), w, slots)
    {
      for i := 0 to |slots|
        invariant View() == EmitActive(old(View()), w, slots[..i])
      {
        RunActiveChanged(w, slots[i]);
        assert slots[..i + 1][..i] == slots[..i];
      }
      assert slots[..|slots|] == slots;
    }

    method TellCreated(w: PlasmaWindow)
      requires w in alive
      modifies alive`slots, models
      ensures View() == EmitCreated(old(View()), w, models)
    {
      ghost var before := View();
      for i := 0 to |models|
        invariant View() == EmitCreated(before, w, models[..i])
      {
        AddTo(models[i], w);
        EmitCreatedNext(before, w, models, i);
      }
      assert models[..|models|] == models;
    }

    method FillModel(model: PlasmaWindowModel)
      requires model in models && forall w | w in windows :: w in alive
      modifies model, alive`slots
      ensures View() == Snapshot(old(View()), model, windows)
    {
      for i := 0 to |windows|
        invariant View() == Snapshot(old(View()), model, windows[..i])
      {
        AddTo(model, windows[i]);
        SnapshotNext(old(View()), model, windows, i);
      }
      assert windows[..|windows|] == windows;
    }

    method TellReleased()
      modifies models
      ensures View() == EmitReleased(old(View()), models)
    {
      for i := 0 to |models|
        invariant View() == EmitReleased(old(View()), models[..i])
      {
        ResetModel(models[i]);
        assert models[..i + 1][..i] == models[..i];
      }
      assert models[..|models|] == models;
    }

    // ---------- Callbacks ----------

    /** PlasmaWindowManagement::Private::windowCreated, run once the event loop gets to it. */
    method WindowCreated() returns (window: PlasmaWindow)
      requires Intact() && bound
      modifies this`windows, this`alive
      ensures fresh(window) && windows == old(windows) + [window]
      ensures !window.active && !window.unmapped && window.parentWindow == null && window.parentWindowChanged == 0
      ensures View() == OnCreated(old(View()), window)
    {
      window := new PlasmaWindow();
      windows := windows + [window];
      alive := alive + {window};
    }

    /** The active bit of stateChangedCallback, through setActive. */
    method SetActive(w: PlasmaWindow, active: bool)
      requires w in alive
      modifies w`active
      ensures View() == old(View()).(win := old(View()).win[w := old(View()).win[w].(active := active)])
      ensures w.slots == old(w.slots)
    {
      w.active := active;
    }

    method StateChanged(w: PlasmaWindow, active: bool)
      requires Intact() && w in alive
      modifies this`activeWindow, this`activeWindowChanged, w`active, models
      ensures View() == OnStateChanged(old(View()), w, active)
    {
      if w.active == active {
        return;
      }
      SetActive(w, active);
      TellActiveChanged(w, w.slots);
    }

    /** parentWindowCallback: the announced parent counts only if the manager lists it. */
    method ParentWindow(w: PlasmaWindow, parent: PlasmaWindow?)
      requires Intact() && w in alive
      modifies alive
      ensures View() == OnParentWindow(old(View()), w, Opt(parent))
    {
      w.SetParentWindow(if parent != null && parent in windows then parent else null, alive);
    }

    method MarkUnmapped(w: PlasmaWindow)
      requires w in alive
      modifies w`unmapped
      ensures View() == Marked(old(View()), w)
    {
      w.unmapped := true;
    }

    method UnmappedCallback(w: PlasmaWindow)
      requires Intact() && w in alive
      modifies this`activeWindow, this`activeWindowChanged, alive, models
      ensures View() == OnUnmapped(old(View()), w)
    {
      MarkUnmapped(w);
      TellUnmapped(w, w.slots);
    }

    /** The end of the QObject of w. */
    method ForgetWindow(w: PlasmaWindow)
      modifies this`alive, alive
      ensures View() == Forget(old(View()), w)
    {
      ForgetEverywhere(alive, w);
      var others := alive - {w};
      assert Views(others) == Forget(old(View()), w).win;
      alive := others;
    }

    /** The deletion of a window: its destroyed signal, then the end of its QObject. */
    method Delete(w: PlasmaWindow)
      requires Intact() && w in alive
      modifies this`windows, this`alive, this`activeWindow, this`activeWindowChanged, alive, models
      ensures View() == OnDestroyed(old(View()), w)
    {
      TellDestroyed(w, w.slots);
      ForgetWindow(w);
    }

    method InitialStateCallback(w: PlasmaWindow)
      requires Intact() && w in alive
      modifies alive`slots, models
      ensures View() == OnInitialState(old(View()), w)
    {
      if !w.unmapped {
        TellCreated(w);
      }
    }

    /** The new model subscribes to the manager. */
    method AttachModel() returns (model: PlasmaWindowModel)
      modifies this`models
      ensures fresh(model) && models == old(models) + [model]
      ensures var s := old(View());
        View() == s.(order := s.order + [model], models := s.models[model := Model([], [])])
    {
      model := new PlasmaWindowModel();
      models := models + [model];
    }

    /** createWindowModel, with the constructor's snapshot of the current windows. */
    method CreateWindowModel() returns (model: PlasmaWindowModel)
      requires Intact()
      modifies this`models, alive`slots
      ensures fresh(model)
      ensures View() == OnModelCreated(old(View()), model)
    {
      model := AttachModel();
      FillModel(model);
    }

    method GiveUpInterface()
      modifies this`bound
      ensures View() == old(View()).(bound := false)
    {
      bound := false;
    }

    method Release()
      requires Intact()
      modifies this`bound, models
      ensures View() == OnReleased(old(View()))
    {
      if !bound {
        return;
      }
      TellReleased();
      GiveUpInterface();
    }

    method Bind()
      requires Intact() && !bound
      modifies this`bound
      ensures View() == Step(old(View()), Setup)
    {
      bound := true;
    }

    // ---------- Whole runs ----------

    lemma InvIntact()
      requires Inv(View())
      ensures Intact()
    {
      forall w | w in alive
        ensures w.parentWindowUnmappedConnection != null ==> w.parentWindowUnmappedConnection in alive
        ensures Reaches(w.slots)
      {
        assert ChildOk(View().win, w) && SlotsOk(View().win, w);
      }
    }

    /** Whatever arrives next extends the run that the objects have followed so far, so every theorem
        about runs holds of them at any time. */
    method Dispatch(input: Input, ghost trace: seq<Event<PlasmaWindow, PlasmaWindowModel>>)
      returns (ghost e: Event<PlasmaWindow, PlasmaWindowModel>)
      requires Legal(trace) && View() == Run(trace) && Acceptable(input)
      modifies this, alive, models
      ensures Announces(input, e)
      ensures Legal(trace + [e]) && View() == Run(trace + [e])
    {
      RunKeepsInv(trace);
      InvIntact();
      e := Handle(input);
      ExtendRun(trace, e);
    }

    method Handle(input: Input) returns (ghost e: Event<PlasmaWindow, PlasmaWindowModel>)
      requires Intact() && Acceptable(input)
      modifies this, alive, models
      ensures Enabled(old(View()), e) && Announces(input, e)
      ensures View() == Step(old(View()), e)
    {
      match input {
        case Announcement =>
          var window := WindowCreated();
          e := Created(window);
        case StateEvent(w, active) =>
          StateChanged(w, active);
          e := WindowState.StateChanged(w, active);
        case ParentEvent(w, parent) =>
          ParentWindow(w, parent);
          e := WindowState.ParentWindow(w, Opt(parent));
        case InitialStateEvent(w) =>
          InitialStateCallback(w);
          e := InitialState(w);
        case UnmappedEvent(w) =>
          UnmappedCallback(w);
          e := Unmapped(w);
        case Deletion(w) =>
          Delete(w);
          e := Destroyed(w);
        case NewModel =>
          var model := CreateWindowModel();
          e := ModelCreated(model);
        case ReleaseInterface =>
          Release();
          e := Released;
        case BindInterface =>
          Bind();
          e := Setup;
      }
    }

    ghost predicate Acceptable(input: Input)
      reads this
    {
      match input
      case Announcement => bound
      case StateEvent(w, _) => w in alive
      case ParentEvent(w, _) => w in alive
      case InitialStateEvent(w) => w in alive
      case UnmappedEvent(w) => w in alive
      case Deletion(w) => w in alive
      case BindInterface => !bound
      case _ => true
    }
  }

  /** What can reach the client: protocol events, deletions, and calls of the application. */
  datatype Input =
    | Announcement
    | StateEvent(w: PlasmaWindow, active: bool)
    | ParentEvent(w: PlasmaWindow, parent: PlasmaWindow?)
    | InitialStateEvent(w: PlasmaWindow)
    | UnmappedEvent(w: PlasmaWindow)
    | Deletion(w: PlasmaWindow)
    | NewModel
    | ReleaseInterface
    | BindInterface

  ghost predicate Announces(input: Input, e: Event<PlasmaWindow, PlasmaWindowModel>) {
    match input
    case Announcement => e.Created?
    case StateEvent(w, active) => e == StateChanged(w, active)
    case ParentEvent(w, parent) => e == ParentWindow(w, Opt(parent))
    case InitialStateEvent(w) => e == InitialState(w)
    case UnmappedEvent(w) => e == Unmapped(w)
    case Deletion(w) => e == Destroyed(w)
    case NewModel => e.ModelCreated?
    case ReleaseInterface => e == Released
    case BindInterface => e == Setup
  }
}
