/** How often a list model is connected to a window, and so how often it announces a change of that window. */
module WindowConnections {
  import opened Lists
  import opened WindowState
  import opened WindowInvariant
  import opened WindowRuns
  import opened WindowRows

  ghost function Connections<W, M>(s: State<W, M>, m: M, w: W): nat
    requires w in s.win
  {
    multiset(s.win[w].slots)[ModelSlot(m)]
  }

  // ---------- One event ----------

  lemma {:induction false} CreatedOthers<W, M>(s: State<W, M>, u: W, order: seq<M>, w: W)
    requires u in s.win && w in s.win && w != u
    ensures EmitCreated(s, u, order).win[w] == s.win[w]
  {
    if order != [] {
      CreatedOthers(s, u, order[..|order| - 1], w);
    }
  }

  lemma NoSuchModel<W, M>(s: State<W, M>, m: M, w: W)
    requires Inv(s) && w in s.win && m !in s.models
    ensures Connections(s, m, w) == 0
  {
    assert ModelSlot(m) !in s.win[w].slots;
    assert ModelSlot(m) !in multiset(s.win[w].slots);
  }

  lemma ListedIsConnected<W, M>(s: State<W, M>, m: M, w: W)
    requires Inv(s) && w in RowsOf(s, m)
    ensures w in s.win && Connections(s, m, w) >= 1
  {
    assert ModelSlot(m) in multiset(s.win[w].slots);
  }

  lemma InitialStateConnections<W, M>(s: State<W, M>, u: W, m: M, w: W)
    requires Inv(s) && u in s.win && w in s.win && m in s.models
    ensures Connections(OnInitialState(s, u), m, w)
      == Connections(s, m, w) + (if u == w && !s.win[w].unmapped && w !in s.models[m].rows then 1 else 0)
  {
    if u == w {
      CreatedSignalSlots(s, w, s.order, m);
    } else {
      CreatedOthers(s, u, s.order, w);
    }
  }

  lemma ParentWindowConnections<W, M>(s: State<W, M>, c: W, p: Option<W>, m: M, w: W)
    requires Inv(s) && c in s.win && w in s.win
    ensures w in OnParentWindow(s, c, p).win
    ensures Connections(OnParentWindow(s, c, p), m, w) == Connections(s, m, w)
  {
    OneSender(s.win, c);
    SetParentSlots(s.win, c, Lookup(s, p), w);
  }

  lemma OrphanedConnections<W, M>(s: State<W, M>, u: W, t: Windows<W, M>, m: M, w: W)
    requires u in s.win && w in s.win && Orphaned(Marked(s, u).win, t, u, s.win[u].slots)
    ensures multiset(t[w].slots)[ModelSlot(m)] == multiset(s.win[w].slots)[ModelSlot(m)]
  {
    if u == w && ModelSlot(m) !in s.win[w].slots {
      assert ModelSlot(m) !in t[w].slots;
      assert ModelSlot(m) !in multiset(t[w].slots) && ModelSlot(m) !in multiset(s.win[w].slots);
    }
  }

  lemma UnmappedConnections<W, M>(s: State<W, M>, u: W, m: M, w: W)
    requires Inv(s) && u in s.win && w in s.win
    ensures Connections(OnUnmapped(s, u), m, w) == Connections(s, m, w)
  {
    UnmapWhole(s, u);
    OrphanedConnections(s, u, OnUnmapped(s, u).win, m, w);
  }

  lemma DestroyedConnections<W, M>(s: State<W, M>, u: W, m: M, w: W)
    requires Inv(s) && u in s.win && w in s.win && w != u
    ensures w in OnDestroyed(s, u).win
    ensures Connections(OnDestroyed(s, u), m, w) == Connections(s, m, w)
  {
    assert OnDestroyed(s, u).win == BereftOf(s.win, u) by { DestroyedEffect(s, u); }
    ForgetSlots(s, u, w);
  }

  lemma {:induction false} SnapshotConnections<W, M>(s: State<W, M>, n: M, windows: seq<W>, m: M, w: W)
    requires n in s.models && s.models[n].rows == [] && NoDup(windows) && w in s.win
    requires forall u | u in windows :: u in s.win
    ensures Connections(Snapshot(s, n, windows), m, w)
      == Connections(s, m, w) + (if n == m && w in windows then 1 else 0)
  {
    if windows != [] {
      var before, u := windows[..|windows| - 1], windows[|windows| - 1];
      assert windows == before + [u] && u !in before;
      SnapshotConnections(s, n, before, m, w);
      SnapshotEffect(s, n, before);
      var t := Snapshot(s, n, before);
      if u == w {
        AddWindowSlots(t, n, w, m);
      } else {
        assert AddWindow(t, n, u).win[w] == t.win[w];
      }
    }
  }

  lemma ModelCreatedConnections<W, M>(s: State<W, M>, n: M, m: M, w: W)
    requires Inv(s) && n !in s.models && w in s.win
    ensures Connections(OnModelCreated(s, n), m, w) == Connections(s, m, w) + (if n == m then 1 else 0)
  {
    SnapshotConnections(s.(order := s.order + [n], models := s.models[n := Model([], [])]), n, s.windows, m, w);
  }

  lemma ReleasedConnections<W, M>(s: State<W, M>, m: M, w: W)
    requires w in s.win
    ensures Connections(OnReleased(s), m, w) == Connections(s, m, w)
  {
  }

  lemma StateChangedConnections<W, M>(s: State<W, M>, u: W, active: bool, m: M, w: W)
    requires u in s.win && w in s.win
    ensures w in OnStateChanged(s, u, active).win
    ensures Connections(OnStateChanged(s, u, active), m, w) == Connections(s, m, w)
  {
  }

  lemma UnknownModelConnections<W, M>(s: State<W, M>, e: Event<W, M>, m: M, w: W)
    requires Inv(s) && Enabled(s, e) && w in s.win && e != Destroyed(w) && e != ModelCreated(m) && m !in s.models
    ensures w in Step(s, e).win && Connections(Step(s, e), m, w) == Connections(s, m, w) == 0
  {
    var t := Step(s, e);
    StepFlags(s, e);
    StepRows(s, e);
    StepKeepsInv(s, e);
    NoSuchModel(s, m, w);
    NoSuchModel(t, m, w);
  }

  lemma KnownModelConnections<W, M>(s: State<W, M>, e: Event<W, M>, m: M, w: W)
    requires Inv(s) && Enabled(s, e) && w in s.win && e != Destroyed(w) && (m in s.models || e == ModelCreated(m))
    ensures w in Step(s, e).win
    ensures Connections(Step(s, e), m, w)
      == Connections(s, m, w) + (if w in Offers(s, e, m) && w !in RowsOf(s, m) then 1 else 0)
  {
    match e
    case Created(u) =>
    case StateChanged(u, active) => StateChangedConnections(s, u, active, m, w);
    case ParentWindow(u, p) => ParentWindowConnections(s, u, p, m, w);
    case InitialState(u) => InitialStateConnections(s, u, m, w);
    case Unmapped(u) => UnmappedConnections(s, u, m, w);
    case Destroyed(u) => DestroyedConnections(s, u, m, w);
    case ModelCreated(n) => ModelCreatedConnections(s, n, m, w);
    case Released => ReleasedConnections(s, m, w);
    case Setup =>
  }

  /** An event connects a model to an existing window once, and only if it offers the window to the model
      and the model does not list it. Nothing but the deletion of the window takes connections away. */
  lemma StepConnections<W, M>(s: State<W, M>, e: Event<W, M>, m: M, w: W)
    requires Inv(s) && Enabled(s, e) && w in s.win && e != Destroyed(w)
    ensures w in Step(s, e).win
    ensures Connections(Step(s, e), m, w)
      == Connections(s, m, w) + (if w in Offers(s, e, m) && w !in RowsOf(s, m) then 1 else 0)
  {
    if m in s.models || e == ModelCreated(m) {
      KnownModelConnections(s, e, m, w);
    } else {
      UnknownModelConnections(s, e, m, w);
    }
  }

  /** Which windows a model lists after an event. */
  lemma StepListed<W, M>(s: State<W, M>, e: Event<W, M>, m: M, w: W)
    requires Inv(s) && Enabled(s, e)
    ensures w in RowsOf(Step(s, e), m)
      <==> (w in RowsOf(s, m) && Stays(Takes(s, e), w)) || (w in Offers(s, e, m) && w !in RowsOf(s, m))
  {
    var rows := RowsOf(s, m);
    StepRows(s, e);
    RowsStep(s, e, Step(s, e), m);
    KeepMembers(rows, (u: W) => Stays(Takes(s, e), u));
    KeepMembers(Offers(s, e, m), (u: W) => u !in rows);
  }

  // ---------- What the history says ----------

  /** w is not deleted by the i-th event or a later one. */
  ghost predicate Undeleted<W, M>(trace: seq<Event<W, M>>, i: nat, w: W) {
    forall j | i <= j < |trace| :: trace[j] != Destroyed(w)
  }

  /** m lists w before the i-th event, and w was not deleted since. */
  ghost predicate ListedSince<W, M>(trace: seq<Event<W, M>>, i: nat, m: M, w: W)
    requires Legal(trace) && i <= |trace|
  {
    w in RowsOf(StateAt(trace, i), m) && Undeleted(trace, i, w)
  }

  /** At some moment since the creation of w, m listed it. */
  ghost predicate EverListed<W, M>(trace: seq<Event<W, M>>, m: M, w: W)
    requires Legal(trace)
  {
    exists i | 0 <= i <= |trace| :: ListedSince(trace, i, m, w)
  }

  /** The i-th event releases the bound manager while m lists w, and w was not deleted since. */
  ghost predicate ResetSince<W, M>(trace: seq<Event<W, M>>, i: nat, m: M, w: W)
    requires Legal(trace) && i < |trace|
  {
    trace[i] == Released && StateAt(trace, i).bound && ListedSince(trace, i, m, w)
  }

  ghost predicate EverReset<W, M>(trace: seq<Event<W, M>>, m: M, w: W)
    requires Legal(trace)
  {
    exists i | 0 <= i < |trace| :: ResetSince(trace, i, m, w)
  }

  /** m was reset while it listed w, and later the k-th event was the initial state of w, which was still
      mapped and was never deleted. */
  ghost predicate RelistedSince<W, M>(trace: seq<Event<W, M>>, k: nat, m: M, w: W)
    requires Legal(trace) && k < |trace|
  {
    LegalPrefix(trace, k);
    && trace[k] == InitialState(w) && EverReset(trace[..k], m, w) && Undeleted(trace, k, w)
    && w in StateAt(trace, k).win && !StateAt(trace, k).win[w].unmapped
  }

  ghost predicate EverRelisted<W, M>(trace: seq<Event<W, M>>, m: M, w: W)
    requires Legal(trace)
  {
    exists k | 0 <= k < |trace| :: RelistedSince(trace, k, m, w)
  }

  lemma UndeletedStep<W, M>(trace: seq<Event<W, M>>, i: nat, w: W)
    requires trace != [] && i < |trace|
    ensures Undeleted(trace, i, w) <==> Undeleted(Before(trace), i, w) && Last(trace) != Destroyed(w)
  {
    assert forall j | 0 <= j < |trace| - 1 :: Before(trace)[j] == trace[j];
    assert trace[|trace| - 1] == Last(trace);
  }

  lemma {:induction false} ListedSinceStep<W, M>(trace: seq<Event<W, M>>, i: nat, m: M, w: W)
    requires trace != [] && Legal(trace) && i < |trace|
    ensures ListedSince(trace, i, m, w) <==> ListedSince(Before(trace), i, m, w) && Last(trace) != Destroyed(w)
  {
    StateAtBefore(trace, i);
    UndeletedStep(trace, i, w);
  }

  lemma {:induction false} EverListedStep<W, M>(trace: seq<Event<W, M>>, m: M, w: W)
    requires trace != [] && Legal(trace)
    ensures EverListed(trace, m, w)
      <==> (EverListed(Before(trace), m, w) && Last(trace) != Destroyed(w)) || w in RowsOf(Run(trace), m)
  {
    forall i | 0 <= i < |trace|
      ensures ListedSince(trace, i, m, w) <==> ListedSince(Before(trace), i, m, w) && Last(trace) != Destroyed(w)
    {
      ListedSinceStep(trace, i, m, w);
    }
    assert trace[..|trace|] == trace;
    assert ListedSince(trace, |trace|, m, w) <==> w in RowsOf(Run(trace), m);
  }

  lemma {:induction false} ResetSinceStep<W, M>(trace: seq<Event<W, M>>, i: nat, m: M, w: W)
    requires trace != [] && Legal(trace) && i < |trace| - 1
    ensures ResetSince(trace, i, m, w) <==> ResetSince(Before(trace), i, m, w) && Last(trace) != Destroyed(w)
  {
    ListedSinceStep(trace, i, m, w);
    StateAtBefore(trace, i);
  }

  lemma {:induction false} EverResetStep<W, M>(trace: seq<Event<W, M>>, m: M, w: W)
    requires trace != [] && Legal(trace)
    ensures var s, e := Run(Before(trace)), Last(trace);
      EverReset(trace, m, w) <==>
        (EverReset(Before(trace), m, w) && e != Destroyed(w)) || (e == Released && s.bound && w in RowsOf(s, m))
  {
    var n := |trace| - 1;
    forall i | 0 <= i < n
      ensures ResetSince(trace, i, m, w) <==> ResetSince(Before(trace), i, m, w) && Last(trace) != Destroyed(w)
    {
      ResetSinceStep(trace, i, m, w);
    }
    StateAtBefore(trace, n);
    UndeletedStep(trace, n, w);
    assert ResetSince(trace, n, m, w)
      <==> (var s := Run(Before(trace)); Last(trace) == Released && s.bound && w in RowsOf(s, m));
  }

  lemma {:induction false} RelistedSinceStep<W, M>(trace: seq<Event<W, M>>, k: nat, m: M, w: W)
    requires trace != [] && Legal(trace) && k < |trace| - 1
    ensures RelistedSince(trace, k, m, w) <==> RelistedSince(Before(trace), k, m, w) && Last(trace) != Destroyed(w)
  {
    UndeletedStep(trace, k, w);
    StateAtBefore(trace, k);
    assert Before(trace)[..k] == trace[..k];
  }

  lemma {:induction false} RelistedNow<W, M>(trace: seq<Event<W, M>>, m: M, w: W)
    requires trace != [] && Legal(trace)
    ensures var s, e := Run(Before(trace)), Last(trace);
      RelistedSince(trace, |trace| - 1, m, w)
      <==> EverReset(Before(trace), m, w) && e == InitialState(w) && w in s.win && !s.win[w].unmapped
  {
    StateAtBefore(trace, |trace| - 1);
    assert trace[..|trace| - 1] == Before(trace);
  }

  lemma {:induction false} EverRelistedStep<W, M>(trace: seq<Event<W, M>>, m: M, w: W)
    requires trace != [] && Legal(trace)
    ensures var s, e := Run(Before(trace)), Last(trace);
      EverRelisted(trace, m, w) <==>
        || (EverRelisted(Before(trace), m, w) && e != Destroyed(w))
        || (EverReset(Before(trace), m, w) && e == InitialState(w) && w in s.win && !s.win[w].unmapped)
  {
    var n := |trace| - 1;
    forall k | 0 <= k < n
      ensures RelistedSince(trace, k, m, w) <==> RelistedSince(Before(trace), k, m, w) && Last(trace) != Destroyed(w)
    {
      RelistedSinceStep(trace, k, m, w);
    }
    RelistedNow(trace, m, w);
  }

  /** A window that does not exist has no such history. */
  lemma {:induction false} NothingSince<W, M>(trace: seq<Event<W, M>>, m: M, w: W)
    requires Legal(trace) && w !in Run(trace).win
    ensures !EverListed(trace, m, w) && !EverReset(trace, m, w) && !EverRelisted(trace, m, w)
  {
    if trace == [] {
      assert trace[..0] == trace;
    } else {
      var s, e := Run(Before(trace)), Last(trace);
      RunKeepsInv(trace);
      RunKeepsInv(Before(trace));
      EverListedStep(trace, m, w);
      EverResetStep(trace, m, w);
      EverRelistedStep(trace, m, w);
      StepFlags(s, e);
      if e != Destroyed(w) {
        NothingSince(Before(trace), m, w);
      }
    }
  }

  /** What the number of connections says about the history, and the other way round. */
  ghost predicate Accounts<W, M>(s: State<W, M>, m: M, w: W, listed: bool, reset: bool, relisted: bool)
    requires w in s.win
  {
    var n := Connections(s, m, w);
    && (n >= 1 <==> listed)
    && (n >= 2 <==> relisted)
    && (reset ==> n >= 1)
    && (reset && w in RowsOf(s, m) ==> n >= 2)
    && (n >= 1 && w !in RowsOf(s, m) && !s.win[w].unmapped ==> reset)
  }

  lemma AccountsStep<W, M>(
      s: State<W, M>, e: Event<W, M>, t: State<W, M>, m: M, w: W, listed: bool, reset: bool, relisted: bool)
    requires Inv(s) && Enabled(s, e) && w in s.win && w in t.win && e != Destroyed(w)
    requires Accounts(s, m, w, listed, reset, relisted)
    requires t.win[w].unmapped == (e == Unmapped(w) || s.win[w].unmapped)
    requires var adds := w in Offers(s, e, m) && w !in RowsOf(s, m);
      && Connections(t, m, w) == Connections(s, m, w) + (if adds then 1 else 0)
      && (w in RowsOf(t, m) <==> (w in RowsOf(s, m) && Stays(Takes(s, e), w)) || adds)
    ensures Accounts(t, m, w,
                     listed || w in RowsOf(t, m),
                     reset || (e == Released && s.bound && w in RowsOf(s, m)),
                     relisted || (reset && e == InitialState(w) && !s.win[w].unmapped))
  {
    if m !in s.models { NoSuchModel(s, m, w); }
    if w in RowsOf(s, m) { ListedIsConnected(s, m, w); }
  }

  ghost predicate Accounted<W, M>(trace: seq<Event<W, M>>, m: M, w: W)
    requires Legal(trace) && w in Run(trace).win
  {
    Accounts(Run(trace), m, w, EverListed(trace, m, w), EverReset(trace, m, w), EverRelisted(trace, m, w))
  }

  lemma {:induction false} NewlyAccounted<W, M>(trace: seq<Event<W, M>>, m: M, w: W)
    requires trace != [] && Legal(trace) && Last(trace) == Created(w)
    ensures w in Run(trace).win && Accounted(trace, m, w)
  {
    var s := Run(Before(trace));
    RunKeepsInv(Before(trace));
    NothingSince(Before(trace), m, w);
    EverListedStep(trace, m, w);
    EverResetStep(trace, m, w);
    EverRelistedStep(trace, m, w);
    StepListed(s, Created(w), m, w);
    assert w !in RowsOf(s, m);
    assert multiset(Run(trace).win[w].slots) == multiset{ManagerSlot};
  }

  lemma {:induction false} AccountedStep<W, M>(trace: seq<Event<W, M>>, m: M, w: W)
    requires trace != [] && Legal(trace) && w in Run(Before(trace)).win && Last(trace) != Destroyed(w)
    requires Accounted(Before(trace), m, w)
    ensures w in Run(trace).win && Accounted(trace, m, w)
  {
    var before, s, e := Before(trace), Run(Before(trace)), Last(trace);
    RunKeepsInv(before);
    StepFlags(s, e);
    StepConnections(s, e, m, w);
    StepListed(s, e, m, w);
    EverListedStep(trace, m, w);
    EverResetStep(trace, m, w);
    EverRelistedStep(trace, m, w);
    AccountsStep(s, e, Run(trace), m, w,
                 EverListed(before, m, w), EverReset(before, m, w), EverRelisted(before, m, w));
  }

  lemma {:induction false} AllAccounted<W, M>(trace: seq<Event<W, M>>, m: M, w: W)
    requires Legal(trace) && w in Run(trace).win
    ensures Accounted(trace, m, w)
  {
    var s, e := Run(Before(trace)), Last(trace);
    RunKeepsInv(Before(trace));
    StepFlags(s, e);
    if w in s.win {
      AllAccounted(Before(trace), m, w);
      AccountedStep(trace, m, w);
    } else {
      NewlyAccounted(trace, m, w);
    }
  }

  // ---------- The number of connections ----------

  /** The i-th event puts w into the rows of m, and w was not deleted since. */
  ghost predicate AddedSince<W, M>(trace: seq<Event<W, M>>, i: nat, m: M, w: W)
    requires Legal(trace) && i < |trace|
  {
    w !in RowsOf(StateAt(trace, i), m) && w in RowsOf(StateAt(trace, i + 1), m) && Undeleted(trace, i, w)
  }

  ghost function Additions<W, M>(trace: seq<Event<W, M>>, m: M, w: W): set<int>
    requires Legal(trace)
  {
    set i | 0 <= i < |trace| && AddedSince(trace, i, m, w)
  }

  lemma {:induction false} AddedSinceStep<W, M>(trace: seq<Event<W, M>>, i: nat, m: M, w: W)
    requires trace != [] && Legal(trace) && i < |trace| - 1
    ensures AddedSince(trace, i, m, w) <==> AddedSince(Before(trace), i, m, w) && Last(trace) != Destroyed(w)
  {
    StateAtBefore(trace, i);
    StateAtBefore(trace, i + 1);
    UndeletedStep(trace, i, w);
  }

  lemma {:induction false} AddedNow<W, M>(trace: seq<Event<W, M>>, m: M, w: W)
    requires trace != [] && Legal(trace)
    ensures AddedSince(trace, |trace| - 1, m, w)
      <==> w !in RowsOf(Run(Before(trace)), m) && w in RowsOf(Run(trace), m) && Last(trace) != Destroyed(w)
  {
    StateAtBefore(trace, |trace| - 1);
    assert trace[..|trace|] == trace;
  }

  lemma {:induction false} AdditionsGrow<W, M>(trace: seq<Event<W, M>>, m: M, w: W)
    requires trace != [] && Legal(trace) && Last(trace) != Destroyed(w)
    ensures Additions(trace, m, w)
      == Additions(Before(trace), m, w) + (if AddedSince(trace, |trace| - 1, m, w) then {|trace| - 1} else {})
  {
    forall i | 0 <= i < |trace| - 1 ensures AddedSince(trace, i, m, w) <==> AddedSince(Before(trace), i, m, w) {
      AddedSinceStep(trace, i, m, w);
    }
  }

  lemma {:induction false} AdditionsStep<W, M>(trace: seq<Event<W, M>>, m: M, w: W)
    requires trace != [] && Legal(trace) && Last(trace) != Destroyed(w)
    ensures var adds := w !in RowsOf(Run(Before(trace)), m) && w in RowsOf(Run(trace), m);
      |Additions(trace, m, w)| == |Additions(Before(trace), m, w)| + (if adds then 1 else 0)
  {
    AddedNow(trace, m, w);
    AdditionsGrow(trace, m, w);
    assert |trace| - 1 !in Additions(Before(trace), m, w);
  }

  lemma {:induction false} NothingAdded<W, M>(trace: seq<Event<W, M>>, m: M, w: W)
    requires Legal(trace) && w !in Run(trace).win
    ensures Additions(trace, m, w) == {}
  {
    NothingSince(trace, m, w);
    forall i | 0 <= i < |trace| ensures !AddedSince(trace, i, m, w) {
      assert !ListedSince(trace, i + 1, m, w);
    }
  }

  /** On every run, a model is connected to an existing window once for every event that put the window into
      its rows since the window was created. */
  lemma {:induction false} ConnectionsExactly<W, M>(trace: seq<Event<W, M>>, m: M, w: W)
    requires Legal(trace) && w in Run(trace).win
    ensures Connections(Run(trace), m, w) == |Additions(trace, m, w)|
  {
    var s, e := Run(Before(trace)), Last(trace);
    RunKeepsInv(Before(trace));
    StepFlags(s, e);
    StepListed(s, e, m, w);
    AdditionsStep(trace, m, w);
    if w in s.win {
      ConnectionsExactly(Before(trace), m, w);
      StepConnections(s, e, m, w);
    } else {
      NothingAdded(Before(trace), m, w);
      assert multiset(Run(trace).win[w].slots) == multiset{ManagerSlot};
    }
  }

  // ---------- What a model announces ----------

  /** On every run, a model is connected to an existing window exactly if it listed the window at some
      moment since the window was created; listing it now is not needed. */
  lemma {:induction false} ConnectedExactly<W, M>(trace: seq<Event<W, M>>, m: M, w: W)
    requires Legal(trace) && w in Run(trace).win
    ensures Connections(Run(trace), m, w) >= 1 <==> EverListed(trace, m, w)
  {
    AllAccounted(trace, m, w);
  }

  /** It is connected more than once exactly if a release came while it listed the window, and the window,
      still mapped and not deleted in between, announced its initial state later. */
  lemma {:induction false} RepeatedExactly<W, M>(trace: seq<Event<W, M>>, m: M, w: W)
    requires Legal(trace) && w in Run(trace).win
    ensures Connections(Run(trace), m, w) >= 2 <==> EverRelisted(trace, m, w)
  {
    AllAccounted(trace, m, w);
  }

  /** What m announces when the active flag of w changes. */
  ghost function Announced<W, M>(s: State<W, M>, w: W, m: M): seq<RowSignal<W>>
    requires w in s.win && m in s.models && ModelsOk(s) && FamilyOk(s.win)
  {
    StateChangedEffect(s, w, !s.win[w].active);
    OnStateChanged(s, w, !s.win[w].active).models[m].log[|s.models[m].log|..]
  }

  /** On every run, when the active flag of w changes, m announces the row of w, or the invalid index if it
      does not list w, and nothing else: once for every event that put w into its rows since w was created,
      so at all exactly if it ever listed w, and more than once exactly if it was reset and given w again. */
  lemma {:induction false} AnnouncementsExactly<W, M>(trace: seq<Event<W, M>>, w: W, m: M)
    requires Legal(trace) && w in Run(trace).win && m in Run(trace).models
    ensures Inv(Run(trace))
    ensures var said := Announced(Run(trace), w, m);
      && said == Times(|Additions(trace, m, w)|, DataChanged(IndexOf(Run(trace).models[m].rows, w)))
      && (|said| >= 1 <==> EverListed(trace, m, w))
      && (|said| >= 2 <==> EverRelisted(trace, m, w))
  {
    var s := Run(trace);
    RunKeepsInv(trace);
    RelayedRows(trace, w, !s.win[w].active, m);
    AllAccounted(trace, m, w);
    ConnectionsExactly(trace, m, w);
  }

  /** A model that lists w announces a change of w once, with its row, exactly if it was not reset and given
      w again; a model that does not list w keeps silent exactly if it never listed it. */
  lemma {:induction false} AnnouncedOnceExactly<W, M>(trace: seq<Event<W, M>>, w: W, m: M)
    requires Legal(trace) && w in Run(trace).win && m in Run(trace).models
    ensures Inv(Run(trace))
    ensures var rows := Run(trace).models[m].rows;
            var proper := if w in rows then [DataChanged(IndexOf(rows, w))] else [];
      Announced(Run(trace), w, m) == proper
      <==> (if w in rows then !EverRelisted(trace, m, w) else !EverListed(trace, m, w))
  {
    AnnouncementsExactly(trace, w, m);
    AllAccounted(trace, m, w);
    if w in Run(trace).models[m].rows { ListedIsConnected(Run(trace), m, w); }
  }

  /** The invalid index is announced exactly if m listed w before, since w was created, and does not now. */
  lemma {:induction false} InvalidIndexExactly<W, M>(trace: seq<Event<W, M>>, w: W, m: M)
    requires Legal(trace) && w in Run(trace).win && m in Run(trace).models
    ensures Inv(Run(trace))
    ensures DataChanged(-1) in Announced(Run(trace), w, m)
      <==> w !in Run(trace).models[m].rows && EverListed(trace, m, w)
  {
    AnnouncementsExactly(trace, w, m);
    var said := Announced(Run(trace), w, m);
    if |said| >= 1 {
      assert said[0] == DataChanged(IndexOf(Run(trace).models[m].rows, w));
    }
  }

  lemma OneUnmappedRow<W, M>(w: W, m: M)
    ensures var trace: seq<Event<W, M>> := [Setup, Created(w), ModelCreated(m), Unmapped(w)];
      && Legal(trace) && w in Run(trace).win && m in Run(trace).models
      && Run(trace).models[m].rows == [] && Connections(Run(trace), m, w) == 1
  {
    var t3: seq<Event<W, M>> := [Setup, Created(w), ModelCreated(m)];
    OneModel<W, M>(w, m);
    Extend(t3, Unmapped(w));
    ExtendRun(t3, Unmapped(w));
    assert t3 + [Unmapped(w)] == [Setup, Created(w), ModelCreated(m), Unmapped(w)];
    RunKeepsInv(t3);
    StepRows(Run(t3), Unmapped(w));
    UnmappedConnections(Run(t3), w, m, w);
    WithoutOne(w, w);
  }

  /** A run without any release after which a model announces a window it does not list. */
  lemma InvalidIndexIsAnnounced<W, M>(w: W, m: M)
    ensures var trace: seq<Event<W, M>> := [Setup, Created(w), ModelCreated(m), Unmapped(w)];
      && Legal(trace) && Inv(Run(trace)) && w in Run(trace).win && m in Run(trace).models
      && Announced(Run(trace), w, m) == [DataChanged(-1)]
  {
    var trace: seq<Event<W, M>> := [Setup, Created(w), ModelCreated(m), Unmapped(w)];
    OneUnmappedRow<W, M>(w, m);
    RunKeepsInv(trace);
    RelayedRows(trace, w, !Run(trace).win[w].active, m);
  }
}
