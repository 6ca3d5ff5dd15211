/**
 * The window tracking protocol as a transition system on values: one manager, its windows,
 * and any number of list models, connected by explicit subscription lists.
 *
 * W and M are the identities of windows and models. In WindowTracking.dfy they are the heap
 * objects themselves, whose methods are proved to take exactly these steps.
 */
module WindowState {
  import opened Lists

  /** One connection to a window's signals, in the order in which it was made.
      ManagerSlot stands for the manager's three closures, ChildSlot for the closure through
      which a transient window follows its parent's unmapped signal, ModelSlot for the
      closures one addWindow call of a list model leaves behind. */
  datatype Slot<W, M> = ManagerSlot | ChildSlot(child: W) | ModelSlot(model: M)

  datatype Window<W, M> = Window(
    active: bool,
    unmapped: bool,
    parent: Option<W>,
    connection: Option<W>,   // the sender of the live parentWindowUnmappedConnection
    parentSignals: nat,      // parentWindowChanged emissions so far
    slots: seq<Slot<W, M>>)

  /** What a list model announces to its views. DataChanged(-1) carries an invalid index. */
  datatype RowSignal<W> =
    | RowsInserted(row: int, window: W)
    | RowsRemoved(row: int)
    | ModelReset
    | DataChanged(row: int)

  datatype Model<W> = Model(rows: seq<W>, log: seq<RowSignal<W>>)

  datatype State<W, M> = State(
    bound: bool,
    windows: seq<W>,
    active: Option<W>,
    activeSignals: nat,      // activeWindowChanged emissions so far
    win: map<W, Window<W, M>>,
    order: seq<M>,           // models in the order in which they subscribed to the manager
    models: map<M, Model<W>>)

  function Initial<W, M>(): State<W, M> {
    State(false, [], None, 0, map[], [], map[])
  }

  // ---------- What a single slot or setter does ----------

  /** The manager drops its active window when that window unmaps, deactivates or dies. */
  function DropActive<W, M>(s: State<W, M>, w: W): State<W, M> {
    if s.active == Some(w) then s.(active := None, activeSignals := s.activeSignals + 1) else s
  }

  /** The manager's activeChanged slot. */
  function FollowActive<W, M>(s: State<W, M>, w: W): State<W, M>
    requires w in s.win
  {
    if !s.win[w].active then DropActive(s, w)
    else if s.active == Some(w) then s
    else s.(active := Some(w), activeSignals := s.activeSignals + 1)
  }

  type Windows<W, M> = map<W, Window<W, M>>

  function SetSlots<W, M>(win: Windows<W, M>, w: W, slots: seq<Slot<W, M>>): Windows<W, M>
    requires w in win
  {
    win[w := win[w].(slots := slots)]
  }

  function Disconnect<W, M(==)>(win: Windows<W, M>, c: W): Windows<W, M>
    requires c in win
  {
    match win[c].connection
    case Some(p) => if p in win then SetSlots(win, p, Without(win[p].slots, ChildSlot(c))) else win
    case None => win
  }

  function Connect<W, M>(win: Windows<W, M>, c: W, p: Option<W>): Windows<W, M>
    requires p.Some? ==> p.value in win
  {
    match p
    case Some(q) => SetSlots(win, q, win[q].slots + [ChildSlot(c)])
    case None => win
  }

  /** A parent counts only while it exists and is mapped. */
  function Usable<W, M>(win: Windows<W, M>, p: Option<W>): (r: Option<W>)
    ensures r.Some? ==> r.value in win
  {
    if p.Some? && p.value in win && !win[p.value].unmapped then p else None
  }

  function AssignParent<W, M>(win: Windows<W, M>, c: W, p: Option<W>): Windows<W, M>
    requires c in win
  {
    var emitted := if p != win[c].parent then 1 else 0;
    win[c := win[c].(parent := p, connection := p, parentSignals := win[c].parentSignals + emitted)]
  }

  /** PlasmaWindow::Private::setParentWindow. */
  function SetParent<W, M(==)>(win: Windows<W, M>, c: W, p: Option<W>): Windows<W, M>
    requires c in win
  {
    AssignParent(Connect(Disconnect(win, c), c, Usable(win, p)), c, Usable(win, p))
  }

  function AddRow<W(==)>(d: Model<W>, w: W): Model<W> {
    if w in d.rows then d
    else Model(d.rows + [w], d.log + [RowsInserted(|d.rows|, w)])
  }

  function RemoveRow<W(==)>(d: Model<W>, w: W): Model<W> {
    var row := IndexOf(d.rows, w);
    if row == -1 then d
    else Model(RemoveAt(d.rows, row), d.log + [RowsRemoved(row)])
  }

  function Relay<W(==)>(d: Model<W>, w: W): Model<W> {
    d.(log := d.log + [DataChanged(IndexOf(d.rows, w))])
  }

  function Reset<W>(d: Model<W>): Model<W> {
    Model([], d.log + [ModelReset])
  }

  /** PlasmaWindowModel::Private::addWindow for one model: a new row and new connections, or nothing. */
  function AddWindow<W, M>(s: State<W, M>, m: M, w: W): State<W, M> {
    if w !in s.win || m !in s.models || w in s.models[m].rows then s
    else
      s.(win := SetSlots(s.win, w, s.win[w].slots + [ModelSlot(m)]),
         models := s.models[m := AddRow(s.models[m], w)])
  }

  // ---------- Signal fan-out, slot by slot ----------

  /** A child's slot runs only if its connection still exists when its turn comes. */
  function UnmappedSlot<W, M>(s: State<W, M>, w: W, slot: Slot<W, M>): State<W, M>
    requires w in s.win
  {
    match slot
    case ManagerSlot => DropActive(s, w)
    case ChildSlot(c) => if c in s.win && slot in s.win[w].slots then s.(win := SetParent(s.win, c, None)) else s
    case ModelSlot(m) => if m in s.models then s.(models := s.models[m := RemoveRow(s.models[m], w)]) else s
  }

  function DestroyedSlot<W, M>(s: State<W, M>, w: W, slot: Slot<W, M>): State<W, M> {
    match slot
    case ManagerSlot => DropActive(s.(windows := Without(s.windows, w)), w)
    case ChildSlot(_) => s
    case ModelSlot(m) => if m in s.models then s.(models := s.models[m := RemoveRow(s.models[m], w)]) else s
  }

  function ActiveSlot<W, M>(s: State<W, M>, w: W, slot: Slot<W, M>): State<W, M>
    requires w in s.win
  {
    match slot
    case ManagerSlot => FollowActive(s, w)
    case ChildSlot(_) => s
    case ModelSlot(m) => if m in s.models then s.(models := s.models[m := Relay(s.models[m], w)]) else s
  }

  function EmitUnmapped<W, M>(s: State<W, M>, w: W, slots: seq<Slot<W, M>>): (t: State<W, M>)
    requires w in s.win
    ensures t.win.Keys == s.win.Keys
  {
    if slots == [] then s else UnmappedSlot(EmitUnmapped(s, w, slots[..|slots| - 1]), w, slots[|slots| - 1])
  }

  function EmitDestroyed<W, M>(s: State<W, M>, w: W, slots: seq<Slot<W, M>>): State<W, M> {
    if slots == [] then s else DestroyedSlot(EmitDestroyed(s, w, slots[..|slots| - 1]), w, slots[|slots| - 1])
  }

  function EmitActive<W, M>(s: State<W, M>, w: W, slots: seq<Slot<W, M>>): (t: State<W, M>)
    requires w in s.win
    ensures t.win == s.win
  {
    if slots == [] then s else ActiveSlot(EmitActive(s, w, slots[..|slots| - 1]), w, slots[|slots| - 1])
  }

  /** The manager's windowCreated signal reaches the models in subscription order. */
  function EmitCreated<W, M>(s: State<W, M>, w: W, order: seq<M>): (t: State<W, M>)
    ensures t.win.Keys == s.win.Keys && t.models.Keys == s.models.Keys
  {
    if order == [] then s else AddWindow(EmitCreated(s, w, order[..|order| - 1]), order[|order| - 1], w)
  }

  /** The constructor of a model adds every window the manager lists at that moment. */
  function Snapshot<W, M>(s: State<W, M>, m: M, windows: seq<W>): (t: State<W, M>)
    ensures t.win.Keys == s.win.Keys && t.models.Keys == s.models.Keys
  {
    if windows == [] then s else AddWindow(Snapshot(s, m, windows[..|windows| - 1]), m, windows[|windows| - 1])
  }

  function EmitReleased<W, M>(s: State<W, M>, order: seq<M>): (t: State<W, M>)
    ensures t.models.Keys == s.models.Keys && t.win == s.win
  {
    if order == [] then s
    else
      var t := EmitReleased(s, order[..|order| - 1]);
      var m := order[|order| - 1];
      if m in t.models then t.(models := t.models[m := Reset(t.models[m])]) else t
  }

  // ---------- Events ----------

  datatype Event<W, M> =
    | Created(w: W)                          // the delayed creation of an announced window
    | StateChanged(w: W, active: bool)
    | ParentWindow(w: W, parent: Option<W>)
    | InitialState(w: W)
    | Unmapped(w: W)
    | Destroyed(w: W)                        // the deferred deletion, or a deletion by the client
    | ModelCreated(m: M)
    | Released
    | Setup

  ghost predicate Enabled<W, M>(s: State<W, M>, e: Event<W, M>) {
    match e
    case Created(w) => w !in s.win && s.bound
    case StateChanged(w, _) => w in s.win
    case ParentWindow(w, _) => w in s.win
    case InitialState(w) => w in s.win
    case Unmapped(w) => w in s.win
    case Destroyed(w) => w in s.win
    case ModelCreated(m) => m !in s.models
    case Released => true
    case Setup => !s.bound
  }

  /** What ~QObject of w leaves of another window: QPointers to w turn null and every connection
      from or to w disappears. */
  function Bereft<W(==), M(==)>(v: Window<W, M>, w: W): Window<W, M> {
    v.(parent := if v.parent == Some(w) then None else v.parent,
       connection := if v.connection == Some(w) then None else v.connection,
       slots := Without(v.slots, ChildSlot(w)))
  }

  function BereftOf<W(==), M(==)>(win: Windows<W, M>, w: W): Windows<W, M> {
    map u | u in win && u != w :: Bereft(win[u], w)
  }

  function Forget<W, M>(s: State<W, M>, w: W): State<W, M> {
    s.(win := BereftOf(s.win, w))
  }

  /** Find a wrapper among the listed windows, as parentWindowCallback does. */
  function Lookup<W, M>(s: State<W, M>, p: Option<W>): Option<W> {
    if p.Some? && p.value in s.windows then p else None
  }

  function OnCreated<W, M>(s: State<W, M>, w: W): State<W, M> {
    s.(windows := s.windows + [w], win := s.win[w := Window(false, false, None, None, 0, [ManagerSlot])])
  }

  function OnStateChanged<W, M>(s: State<W, M>, w: W, active: bool): State<W, M>
    requires w in s.win
  {
    if s.win[w].active == active then s
    else EmitActive(s.(win := s.win[w := s.win[w].(active := active)]), w, s.win[w].slots)
  }

  function OnParentWindow<W, M>(s: State<W, M>, w: W, parent: Option<W>): State<W, M>
    requires w in s.win
  {
    s.(win := SetParent(s.win, w, Lookup(s, parent)))
  }

  function OnInitialState<W, M>(s: State<W, M>, w: W): State<W, M>
    requires w in s.win
  {
    if s.win[w].unmapped then s else EmitCreated(s, w, s.order)
  }

  /** The window is marked before anyone is told. */
  function Marked<W, M>(s: State<W, M>, w: W): State<W, M>
    requires w in s.win
  {
    s.(win := s.win[w := s.win[w].(unmapped := true)])
  }

  function OnUnmapped<W, M>(s: State<W, M>, w: W): State<W, M>
    requires w in s.win
  {
    EmitUnmapped(Marked(s, w), w, s.win[w].slots)
  }

  function OnDestroyed<W, M>(s: State<W, M>, w: W): State<W, M>
    requires w in s.win
  {
    Forget(EmitDestroyed(s, w, s.win[w].slots), w)
  }

  function OnModelCreated<W, M>(s: State<W, M>, m: M): State<W, M> {
    Snapshot(s.(order := s.order + [m], models := s.models[m := Model([], [])]), m, s.windows)
  }

  function OnReleased<W, M>(s: State<W, M>): State<W, M> {
    if s.bound then EmitReleased(s, s.order).(bound := false) else s
  }

  function Step<W, M>(s: State<W, M>, e: Event<W, M>): State<W, M>
    requires Enabled(s, e)
  {
    match e
    case Created(w) => OnCreated(s, w)
    case StateChanged(w, active) => OnStateChanged(s, w, active)
    case ParentWindow(w, parent) => OnParentWindow(s, w, parent)
    case InitialState(w) => OnInitialState(s, w)
    case Unmapped(w) => OnUnmapped(s, w)
    case Destroyed(w) => OnDestroyed(s, w)
    case ModelCreated(m) => OnModelCreated(s, m)
    case Released => OnReleased(s)
    case Setup => s.(bound := true)
  }

  // ---------- The invariant ----------

  /** The lists name exactly what exists, once. */
  ghost predicate Linked<W, M>(s: State<W, M>) {
    && (forall w | w in s.windows :: w in s.win)
    && (forall m | m in s.order :: m in s.models)
    && NoDup(s.windows)
    && (forall w | w in s.win :: w in s.windows)
    && NoDup(s.order)
    && (forall m | m in s.models :: m in s.order)
  }

  ghost predicate ActiveOk<W, M>(s: State<W, M>) {
    s.active.Some? ==> s.active.value in s.win && s.win[s.active.value].active
  }

  /** Each child subscribes to its parent and to nobody else, exactly once, and no parent is unmapped. */
  ghost predicate FamilyOk<W, M>(win: Windows<W, M>) {
    forall w | w in win :: ChildOk(win, w) && SlotsOk(win, w)
  }

  ghost predicate ChildOk<W, M>(win: Windows<W, M>, c: W)
    requires c in win
  {
    && win[c].connection == win[c].parent
    && (win[c].parent.Some? ==>
      var p := win[c].parent.value;
      p in win && !win[p].unmapped && multiset(win[p].slots)[ChildSlot(c)] == 1)
  }

  ghost predicate SlotsOk<W, M>(win: Windows<W, M>, w: W)
    requires w in win
  {
    && multiset(win[w].slots)[ManagerSlot] == 1
    && forall x | x in win[w].slots :: x.ChildSlot? ==> x.child in win && win[x.child].connection == Some(w)
  }

  /** What a view shows after the announced rows, or None once an announced row was out of range.
      A view reads a new row's window from the model right after the insertion, and DataChanged
      must name a row that exists or be the invalid index. */
  ghost function Replay<W>(log: seq<RowSignal<W>>): Option<seq<W>> {
    if log == [] then Some([])
    else
      match Replay(log[..|log| - 1])
      case None => None
      case Some(rows) =>
        match log[|log| - 1]
        case RowsInserted(row, w) => if 0 <= row <= |rows| then Some(rows[..row] + [w] + rows[row..]) else None
        case RowsRemoved(row) => if 0 <= row < |rows| then Some(RemoveAt(rows, row)) else None
        case ModelReset => Some([])
        case DataChanged(row) => if -1 <= row < |rows| then Some(rows) else None
  }

  ghost predicate ModelOk<W>(d: Model<W>) {
    NoDup(d.rows) && Replay(d.log) == Some(d.rows)
  }

  /** Views agree with their model, and a model lists windows at most once, only ones it is still connected to. */
  ghost predicate ModelsOk<W, M>(s: State<W, M>) {
    && (forall m | m in s.models ::
      && ModelOk(s.models[m])
      && (forall w | w in s.models[m].rows :: w in s.win && ModelSlot(m) in s.win[w].slots))
    && (forall w | w in s.win ::
      forall x | x in s.win[w].slots :: x.ModelSlot? ==> x.model in s.models)
  }

  ghost predicate Inv<W, M>(s: State<W, M>) {
    Linked(s) && ActiveOk(s) && FamilyOk(s.win) && ModelsOk(s)
  }
}
