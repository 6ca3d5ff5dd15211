/** What a list model announces to its views on every event, signal by signal. */
module WindowLogs {
  import opened Lists
  import opened WindowState
  import opened WindowInvariant
  import opened WindowRuns
  import opened WindowConnections

  lemma RemovedLog<W, M>(d: Model<W>, w: W)
    ensures RemoveRow(d, w).log == d.log + if w in d.rows then [RowsRemoved(IndexOf(d.rows, w))] else []
  {
  }

  lemma UnmappedLog<W, M>(s: State<W, M>, w: W, m: M)
    requires Inv(s) && w in s.win && m in s.models
    ensures var rows := s.models[m].rows;
      m in OnUnmapped(s, w).models
      && OnUnmapped(s, w).models[m].log
        == s.models[m].log + (if w in rows then [RowsRemoved(IndexOf(rows, w))] else [])
  {
    UnmapWhole(s, w);
    RemovedLog<W, M>(s.models[m], w);
  }

  lemma DestroyedLog<W, M>(s: State<W, M>, w: W, m: M)
    requires Inv(s) && w in s.win && m in s.models
    ensures var rows := s.models[m].rows;
      m in OnDestroyed(s, w).models
      && OnDestroyed(s, w).models[m].log
        == s.models[m].log + (if w in rows then [RowsRemoved(IndexOf(rows, w))] else [])
  {
    DestroyedEffect(s, w);
    RemovedLog<W, M>(s.models[m], w);
  }

  lemma InitialStateLog<W, M>(s: State<W, M>, w: W, m: M)
    requires Inv(s) && w in s.win && m in s.models
    ensures var rows := s.models[m].rows;
      m in OnInitialState(s, w).models
      && OnInitialState(s, w).models[m].log
        == s.models[m].log + (if !s.win[w].unmapped && w !in rows then [RowsInserted(|rows|, w)] else [])
  {
    CreatedSignalEffect(s, w, s.order);
  }

  lemma ReleasedLog<W, M>(s: State<W, M>, m: M)
    requires Inv(s) && m in s.models
    ensures m in OnReleased(s).models
    ensures OnReleased(s).models[m].log == s.models[m].log + (if s.bound then [ModelReset] else [])
  {
    ReleasedSignalEffect(s, s.order);
  }

  lemma StateChangedLog<W, M>(s: State<W, M>, w: W, active: bool, m: M)
    requires Inv(s) && w in s.win && m in s.models
    ensures var n := if s.win[w].active == active then 0 else Connections(s, m, w);
      m in OnStateChanged(s, w, active).models
      && OnStateChanged(s, w, active).models[m].log
        == s.models[m].log + seq(n, _ => DataChanged(IndexOf(s.models[m].rows, w)))
  {
    if s.win[w].active != active { StateChangedEffect(s, w, active); }
  }

  lemma {:induction false} SnapshotLog<W, M>(s: State<W, M>, m: M, windows: seq<W>)
    requires m in s.models && s.models[m] == Model([], []) && NoDup(windows)
    requires forall w | w in windows :: w in s.win
    ensures Snapshot(s, m, windows).models[m].log
      == seq(|windows|, i requires 0 <= i < |windows| => RowsInserted(i, windows[i]))
  {
    if windows != [] {
      var before, w := windows[..|windows| - 1], windows[|windows| - 1];
      assert windows == before + [w] && w !in before;
      SnapshotLog(s, m, before);
      SnapshotEffect(s, m, before);
      AddWindowEffect(Snapshot(s, m, before), m, w);
    }
  }

  lemma OthersUnaffected<W, M>(s: State<W, M>, n: M, m: M)
    requires Inv(s) && n !in s.models && m in s.models
    ensures m in OnModelCreated(s, n).models && OnModelCreated(s, n).models[m] == s.models[m]
  {
    SnapshotEffect(s.(order := s.order + [n], models := s.models[n := Model([], [])]), n, s.windows);
  }

  /** On every run, what an event makes a model announce: a listed window that unmaps or is deleted, the
      removal of its row; a mapped unlisted window that announces its initial state, the insertion of a last
      row; a release of the bound manager, one reset; a change of the active flag, the row of the window or
      the invalid index once per connection; anything else, nothing. */
  lemma {:induction false} AnnouncedExactly<W, M>(trace: seq<Event<W, M>>, e: Event<W, M>, m: M)
    requires Legal(trace) && Enabled(Run(trace), e) && m in Run(trace).models
    ensures Legal(trace + [e]) && m in Run(trace + [e]).models
    ensures var s := Run(trace);
            var rows := s.models[m].rows;
      Run(trace + [e]).models[m].log == s.models[m].log +
        match e
        case Unmapped(w) => if w in rows then [RowsRemoved(IndexOf(rows, w))] else []
        case Destroyed(w) => if w in rows then [RowsRemoved(IndexOf(rows, w))] else []
        case InitialState(w) => if !s.win[w].unmapped && w !in rows then [RowsInserted(|rows|, w)] else []
        case Released => if s.bound then [ModelReset] else []
        case StateChanged(w, active) =>
          if s.win[w].active == active then [] else seq(Connections(s, m, w), _ => DataChanged(IndexOf(rows, w)))
        case _ => []
  {
    var s := Run(trace);
    RunKeepsInv(trace);
    ExtendRun(trace, e);
    match e
    case Unmapped(w) => UnmappedLog(s, w, m);
    case Destroyed(w) => DestroyedLog(s, w, m);
    case InitialState(w) => InitialStateLog(s, w, m);
    case Released => ReleasedLog(s, m);
    case StateChanged(w, active) => StateChangedLog(s, w, active, m);
    case ModelCreated(n) => OthersUnaffected(s, n, m);
    case _ =>
  }

  /** A new model announces one row for each window of the manager, in order. */
  lemma {:induction false} NewModelAnnounces<W, M>(trace: seq<Event<W, M>>, m: M)
    requires Legal(trace) && m !in Run(trace).models
    ensures Legal(trace + [ModelCreated(m)]) && m in Run(trace + [ModelCreated(m)]).models
    ensures var windows := Run(trace).windows;
      Run(trace + [ModelCreated(m)]).models[m].log
        == seq(|windows|, i requires 0 <= i < |windows| => RowsInserted(i, windows[i]))
  {
    var s := Run(trace);
    RunKeepsInv(trace);
    ExtendRun(trace, ModelCreated(m));
    SnapshotLog(s.(order := s.order + [m], models := s.models[m := Model([], [])]), m, s.windows);
  }
}
