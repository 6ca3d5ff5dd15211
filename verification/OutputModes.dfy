/**
 * The mode list of OutputDevice: an erase-while-iterating loop against a closed form over the
 * whole event history.
 */
module OutputModes {
  import opened Geometry
  import opened Lists

  /** WL_OUTPUT_MODE_CURRENT and WL_OUTPUT_MODE_PREFERRED. */
  const MODE_CURRENT: bv32 := 1
  const MODE_PREFERRED: bv32 := 2

  /** `owned` says whether the weak pointer to the device is set. */
  datatype Mode = Mode(size: Size, refreshRate: int, current: bool, preferred: bool, owned: bool, id: int) {
    /** The mode without its Current flag. */
    function Cleared(): Mode {
      this.(current := false)
    }

    /** Mode::operator== ignores the id. */
    predicate Same(m: Mode)
      ensures Same(m) <==> this.(id := m.id) == m
    {
      && size == m.size && refreshRate == m.refreshRate
      && current == m.current && preferred == m.preferred && owned == m.owned
    }

    /** Two events announce the same mode when they agree in size and refresh rate. */
    function Key(): (Size, int) {
      (size, refreshRate)
    }
  }

  datatype Signal = ModeChanged(mode: Mode) | ModeAdded(mode: Mode)

  datatype Event = Event(flags: bv32, width: int, height: int, refresh: int, id: int) {
    function Announced(): Mode {
      Mode(Size(width, height), refresh, flags & MODE_CURRENT != 0, flags & MODE_PREFERRED != 0, true, id)
    }
  }

  /** A default constructed Mode has an invalid QSize. Its id is indeterminate; 0 stands for it. */
  const NO_MODE := Mode(INVALID_SIZE, 0, false, false, false, 0)

  // ---------- The effect of one event ----------

  /** The listed modes other than those with the given size and refresh rate, none of them current. */
  function Others(modes: seq<Mode>, key: (Size, int)): seq<Mode> {
    if modes == [] then []
    else
      var rest := Others(modes[..|modes| - 1], key);
      var m := modes[|modes| - 1];
      if m.Key() == key then rest else rest + [m.Cleared()]
  }

  lemma {:induction false} OthersAppend(modes: seq<Mode>, m: Mode, key: (Size, int))
    ensures Others(modes + [m], key) == Others(modes, key) + (if m.Key() == key then [] else [m.Cleared()])
  {
    assert (modes + [m])[..|modes|] == modes;
  }

  /** modeChanged for every mode that loses its Current flag. */
  function ClearSignals(modes: seq<Mode>): seq<Signal> {
    if modes == [] then []
    else
      var rest := ClearSignals(modes[..|modes| - 1]);
      var m := modes[|modes| - 1];
      if m.current then rest + [ModeChanged(m.Cleared())] else rest
  }

  lemma {:induction false} ClearSignalsAppend(modes: seq<Mode>, m: Mode)
    ensures ClearSignals(modes + [m]) == ClearSignals(modes) + (if m.current then [ModeChanged(m.Cleared())] else [])
  {
    assert (modes + [m])[..|modes|] == modes;
  }

  predicate Listed(modes: seq<Mode>, key: (Size, int)) {
    exists m | m in modes :: m.Key() == key
  }

  /** What a further mode does to the modes already listed. */
  function Kept(modes: seq<Mode>, m: Mode): seq<Mode> {
    if m.current then Others(modes, m.Key()) else modes
  }

  function Added(modes: seq<Mode>, mode: Mode): seq<Mode> {
    Kept(modes, mode) + [mode]
  }

  function Signals(modes: seq<Mode>, mode: Mode): seq<Signal> {
    if !mode.current then [ModeAdded(mode)]
    else ClearSignals(modes) + [if Listed(modes, mode.Key()) then ModeChanged(mode) else ModeAdded(mode)]
  }

  lemma {:induction false} Visited(modes: seq<Mode>, i: nat, key: (Size, int))
    requires i < |modes|
    ensures modes[i..] == [modes[i]] + modes[i + 1..]
    ensures Others(modes[..i + 1], key)
      == Others(modes[..i], key) + (if modes[i].Key() == key then [] else [modes[i].Cleared()])
    ensures ClearSignals(modes[..i + 1])
      == ClearSignals(modes[..i]) + (if modes[i].current then [ModeChanged(modes[i].Cleared())] else [])
    ensures Listed(modes[..i + 1], key) <==> Listed(modes[..i], key) || modes[i].Key() == key
  {
    assert modes[..i + 1] == modes[..i] + [modes[i]];
    OthersAppend(modes[..i], modes[i], key);
    ClearSignalsAppend(modes[..i], modes[i]);
  }

  /** Replacing or erasing an element leaves what is before and after it alone. */
  lemma Slices(modes: seq<Mode>, i: nat, m: Mode)
    requires i < |modes|
    ensures var t := modes[i := m];
      && t[..i] == modes[..i] && t[i + 1..] == modes[i + 1..] && t[..i + 1] == modes[..i] + [m]
      && RemoveAt(t, i)[..i] == modes[..i] && RemoveAt(t, i)[i..] == modes[i + 1..]
    ensures RemoveAt(modes, i)[..i] == modes[..i] && RemoveAt(modes, i)[i..] == modes[i + 1..]
    ensures modes[..i + 1] == modes[..i] + [modes[i]]
  {
  }

  // ---------- The object ----------

  class OutputDevice {
    var modes: seq<Mode>
    var globalPosition: Point
    ghost var log: seq<Signal>
    ghost var events: seq<Event>   // the mode events so far

    ghost predicate Valid()
      reads this
    {
      modes == Run(events) && log == RunSignals(events)
    }

    constructor ()
      ensures Valid() && events == [] && globalPosition == Point(0, 0)
    {
      modes, log, events, globalPosition := [], [], [], Point(0, 0);
    }

    /** One round of the loop in AddMode: the mode at `it` loses its Current flag, and is erased if it
        has the size and refresh rate of the new one. */
    method VisitMode(it: nat, mode: Mode) returns (next: nat, erased: bool)
      requires it < |modes|
      modifies this`modes, this`log
      ensures next <= |modes| && erased == (old(modes)[it].Key() == mode.Key())
      ensures modes[..next] == old(modes)[..it] + (if erased then [] else [old(modes)[it].Cleared()])
      ensures modes[next..] == old(modes)[it + 1..]
      ensures log == old(log) + if old(modes)[it].current then [ModeChanged(old(modes)[it].Cleared())] else []
    {
      var m := modes[it];
      Slices(modes, it, m.Cleared());
      if m.current {
        modes := modes[it := m.Cleared()];
        log := log + [ModeChanged(m.Cleared())];
      }
      erased := m.refreshRate == mode.refreshRate && m.size == mode.size;
      if erased {
        modes := RemoveAt(modes, it);
        next := it;
      } else {
        next := it + 1;
      }
    }

    method AddMode(event: Event)
      modifies this`modes, this`log
      ensures modes == Added(old(modes), event.Announced())
      ensures log == old(log) + Signals(old(modes), event.Announced())
    {
      var mode := event.Announced();
      var existing := false;
      if event.flags & MODE_CURRENT != 0 {
        var it: nat := 0;
        ghost var done: nat := 0;   // how many of the original modes were visited
        ghost var before := modes;
        while it < |modes|
          invariant it <= |modes| && done <= |before|
          invariant modes[..it] == Others(before[..done], mode.Key())
          invariant modes[it..] == before[done..]
          invariant log == old(log) + ClearSignals(before[..done])
          invariant existing == Listed(before[..done], mode.Key())
          decreases |modes| - it
        {
          assert modes[it] == modes[it..][0] == before[done..][0];
          Visited(before, done, mode.Key());
          assert before[done..][1..] == before[done + 1..] && modes[it..][1..] == modes[it + 1..];
          var erased;
          it, erased := VisitMode(it, mode);
          existing := existing || erased;
          done := done + 1;
        }
        assert before[..done] == before && modes[..it] == modes;
      }
      modes := modes + [mode];
      log := log + [if existing then ModeChanged(mode) else ModeAdded(mode)];
    }

    method ModeCallback(event: Event)
      requires Valid()
      modifies this`modes, this`log, this`events
      ensures Valid() && events == old(events) + [event]
    {
      AddMode(event);
      events := events + [event];
      assert events[..|events| - 1] == old(events);
    }

    method CurrentMode() returns (mode: Mode)
      ensures mode == CurrentOf(modes)
    {
      for i := 0 to |modes|
        invariant CurrentOf(modes) == CurrentOf(modes[i..])
      {
        if modes[i].current {
          return modes[i];
        }
        assert modes[i..][1..] == modes[i + 1..];
      }
      return NO_MODE;
    }

    method Geometry() returns (r: Rect)
      ensures r == GeometryOf(modes, globalPosition)
    {
      var mode := CurrentMode();
      if mode.Same(NO_MODE) {
        return NULL_RECT;
      }
      mode := CurrentMode();
      return Rect(globalPosition.x, globalPosition.y, mode.size.width, mode.size.height);
    }
  }

  /** The first mode flagged Current, or a default constructed one. */
  function CurrentOf(modes: seq<Mode>): Mode {
    if modes == [] then NO_MODE
    else if modes[0].current then modes[0]
    else CurrentOf(modes[1..])
  }

  function GeometryOf(modes: seq<Mode>, position: Point): Rect {
    var mode := CurrentOf(modes);
    if mode.Same(NO_MODE) then NULL_RECT
    else Rect(position.x, position.y, mode.size.width, mode.size.height)
  }

  // ---------- Whole histories ----------

  /** The mode list after a run of mode events. */
  function Run(events: seq<Event>): seq<Mode> {
    if events == [] then [] else Added(Run(events[..|events| - 1]), events[|events| - 1].Announced())
  }

  function RunSignals(events: seq<Event>): seq<Signal> {
    if events == [] then []
    else
      var before := events[..|events| - 1];
      RunSignals(before) + Signals(Run(before), events[|events| - 1].Announced())
  }

  /** What an event announces, read off its arguments: the flag bits are WL_OUTPUT_MODE_CURRENT, 1, and
      WL_OUTPUT_MODE_PREFERRED, 2. */
  lemma AnnouncedIs(e: Event)
    ensures e.Announced() == Mode(Size(e.width, e.height), e.refresh, e.flags & 1 != 0, e.flags & 2 != 0, true, e.id)
  {
  }

  ghost predicate IsCurrent(events: seq<Event>, i: nat)
    requires i < |events|
  {
    events[i].flags & 1 != 0
  }

  ghost predicate Alike(a: Event, b: Event) {
    a.width == b.width && a.height == b.height && a.refresh == b.refresh
  }

  /** No later Current event announces the size and refresh rate of the i-th event. */
  ghost predicate Survives(events: seq<Event>, i: nat)
    requires i < |events|
  {
    forall j | i < j < |events| && IsCurrent(events, j) :: !Alike(events[j], events[i])
  }

  ghost predicate LastCurrent(events: seq<Event>, i: nat)
    requires i < |events|
  {
    IsCurrent(events, i) && forall j | i < j < |events| :: !IsCurrent(events, j)
  }

  /** The mode of the i-th event as listed at the end: it is Current only if no later event is. */
  ghost function Shown(events: seq<Event>, i: nat): Mode
    requires i < |events|
  {
    var e := events[i];
    Mode(Size(e.width, e.height), e.refresh, LastCurrent(events, i), e.flags & 2 != 0, true, e.id)
  }

  /** The i-th event's entry in the list at the end, if it has one. */
  ghost function Entry(events: seq<Event>, i: nat): seq<Mode>
    requires i < |events|
  {
    if Survives(events, i) then [Shown(events, i)] else []
  }

  ghost function Entries(events: seq<Event>): seq<seq<Mode>> {
    seq(|events|, i requires 0 <= i < |events| => Entry(events, i))
  }

  /** The surviving events in order of arrival. */
  ghost function Survivors(events: seq<Event>): seq<Mode> {
    Flatten(Entries(events))
  }

  lemma SurvivesStep(events: seq<Event>, e: Event, i: nat)
    requires i < |events|
    ensures var current := e.Announced().current;
      && (Survives(events + [e], i) <==> Survives(events, i) && !(current && Alike(e, events[i])))
      && Shown(events + [e], i) == if current then Shown(events, i).Cleared() else Shown(events, i)
  {
    var more := events + [e];
    AnnouncedIs(e);
    assert forall j | 0 <= j < |events| :: more[j] == events[j] && IsCurrent(more, j) == IsCurrent(events, j);
    assert more[|events|] == e && IsCurrent(more, |events|) == e.Announced().current;
  }

  lemma EntryStep(events: seq<Event>, e: Event, i: nat)
    requires i < |events|
    ensures var m := e.Announced();
      Entry(events + [e], i) == Kept(Entry(events, i), m)
  {
    SurvivesStep(events, e, i);
    AnnouncedIs(e);
    OthersAppend([], Shown(events, i), e.Announced().Key());
    assert [] + [Shown(events, i)] == [Shown(events, i)];
  }

  lemma {:induction false} OthersConcat(a: seq<Mode>, b: seq<Mode>, key: (Size, int))
    ensures Others(a + b, key) == Others(a, key) + Others(b, key)
  {
    if b == [] {
      assert a + b == a;
    } else {
      assert (a + b)[..|a + b| - 1] == a + b[..|b| - 1];
      OthersConcat(a, b[..|b| - 1], key);
    }
  }

  lemma KeptConcat(a: seq<Mode>, b: seq<Mode>, m: Mode)
    ensures Kept(a + b, m) == Kept(a, m) + Kept(b, m)
  {
    OthersConcat(a, b, m.Key());
  }

  lemma {:induction false} KeptFlatten(parts: seq<seq<Mode>>, kept: seq<seq<Mode>>, m: Mode)
    requires |kept| == |parts| && forall i | 0 <= i < |parts| :: kept[i] == Kept(parts[i], m)
    ensures Flatten(kept) == Kept(Flatten(parts), m)
  {
    if parts != [] {
      var n := |parts| - 1;
      KeptFlatten(parts[..n], kept[..n], m);
      KeptConcat(Flatten(parts[..n]), parts[n], m);
    }
  }

  /** A further event acts on the survivors as it acts on the mode list. */
  lemma SurvivorsStep(events: seq<Event>, e: Event)
    ensures Survivors(events + [e]) == Added(Survivors(events), e.Announced())
  {
    var m, n := e.Announced(), |events|;
    var parts, more := Entries(events), Entries(events + [e]);
    forall i | 0 <= i < n ensures more[i] == Kept(parts[i], m) {
      EntryStep(events, e, i);
    }
    KeptFlatten(parts, more[..n], m);
    AnnouncedIs(e);
    assert (events + [e])[n] == e && Survives(events + [e], n) && Shown(events + [e], n) == m;
  }

  /** modes() is exactly the events in arrival order, without those superseded by a later Current event
      of the same size and refresh rate, and with the Current flag only on the last Current event. */
  lemma {:induction false} ModesAreTheSurvivors(events: seq<Event>)
    ensures Run(events) == Survivors(events)
  {
    if events != [] {
      var before, e := events[..|events| - 1], events[|events| - 1];
      assert events == before + [e];
      ModesAreTheSurvivors(before);
      SurvivorsStep(before, e);
    }
  }

  // ---------- Consequences for every history ----------

  ghost predicate AnyCurrent(events: seq<Event>) {
    exists i | 0 <= i < |events| :: IsCurrent(events, i)
  }

  predicate HasCurrent(modes: seq<Mode>) {
    exists m | m in modes :: m.current
  }

  lemma {:induction false} OthersAreCleared(modes: seq<Mode>, key: (Size, int))
    ensures forall m | m in Others(modes, key) :: !m.current && m.Key() != key
  {
    if modes != [] {
      OthersAreCleared(modes[..|modes| - 1], key);
    }
  }

  lemma {:induction false} CurrentOfAppend(modes: seq<Mode>, mode: Mode)
    ensures CurrentOf(modes + [mode]) ==
      if HasCurrent(modes) then CurrentOf(modes) else if mode.current then mode else NO_MODE
  {
    if modes != [] {
      assert (modes + [mode])[1..] == modes[1..] + [mode];
      CurrentOfAppend(modes[1..], mode);
      assert forall m :: m in modes <==> m == modes[0] || m in modes[1..];
    }
  }

  lemma {:induction false} CurrentOfMember(modes: seq<Mode>)
    ensures HasCurrent(modes) ==> CurrentOf(modes) in modes && CurrentOf(modes).current
    ensures !HasCurrent(modes) ==> CurrentOf(modes) == NO_MODE
  {
    if modes != [] {
      CurrentOfMember(modes[1..]);
      assert forall m :: m in modes <==> m == modes[0] || m in modes[1..];
    }
  }

  /** At most one listed mode is ever Current. */
  lemma {:induction false} AtMostOneCurrent(events: seq<Event>)
    ensures forall i, j | 0 <= i < j < |Run(events)| :: !(Run(events)[i].current && Run(events)[j].current)
  {
    if events != [] {
      var before, mode := events[..|events| - 1], events[|events| - 1].Announced();
      AtMostOneCurrent(before);
      if mode.current {
        OthersAreCleared(Run(before), mode.Key());
      }
    }
  }

  lemma RunStep(events: seq<Event>)
    requires events != []
    ensures var before, mode := events[..|events| - 1], events[|events| - 1].Announced();
      && CurrentOf(Run(events)) == (if mode.current then mode else CurrentOf(Run(before)))
      && (HasCurrent(Run(events)) <==> mode.current || HasCurrent(Run(before)))
  {
    var before, mode := events[..|events| - 1], events[|events| - 1].Announced();
    var kept := Kept(Run(before), mode);
    assert Run(events) == kept + [mode];
    if mode.current {
      OthersAreCleared(Run(before), mode.Key());
      assert mode in Run(events);
    }
    CurrentOfAppend(kept, mode);
    CurrentOfMember(Run(before));
    assert forall m :: m in Run(events) <==> m in kept || m == mode;
  }

  lemma CurrentStep(events: seq<Event>, e: Event)
    ensures AnyCurrent(events + [e]) <==> AnyCurrent(events) || e.Announced().current
    ensures forall i | 0 <= i < |events| ::
      LastCurrent(events + [e], i) <==> LastCurrent(events, i) && !e.Announced().current
  {
    var more := events + [e];
    AnnouncedIs(e);
    assert forall i | 0 <= i < |events| :: IsCurrent(more, i) == IsCurrent(events, i);
    assert IsCurrent(more, |events|) == e.Announced().current;
  }

  /** currentMode() has the arguments of the last Current event, and is a default mode before the first. */
  lemma {:induction false} CurrentModeIsTheLast(events: seq<Event>)
    ensures HasCurrent(Run(events)) <==> AnyCurrent(events)
    ensures !AnyCurrent(events) ==> CurrentOf(Run(events)) == Mode(Size(-1, -1), 0, false, false, false, 0)
    ensures forall i | 0 <= i < |events| && LastCurrent(events, i) ::
      var e := events[i];
      CurrentOf(Run(events)) == Mode(Size(e.width, e.height), e.refresh, true, e.flags & 2 != 0, true, e.id)
  {
    if events != [] {
      var n := |events| - 1;
      var before := events[..n];
      assert events == before + [events[n]];
      CurrentModeIsTheLast(before);
      RunStep(events);
      AnnouncedIs(events[n]);
      CurrentStep(before, events[n]);
    }
  }

  /** The mode of the newest event is listed last, with the arguments of the event. */
  lemma {:induction false} NewestIsLast(events: seq<Event>, e: Event)
    ensures var modes := Run(events + [e]);
      && modes != []
      && modes[|modes| - 1]
        == Mode(Size(e.width, e.height), e.refresh, e.flags & 1 != 0, e.flags & 2 != 0, true, e.id)
  {
    assert (events + [e])[..|events|] == events;
    AnnouncedIs(e);
  }

  /** geometry() is QRect() exactly when no Current event has arrived, or the current mode has size
      0 by 0 and the output sits at the origin. */
  lemma {:induction false} GeometryNullExactly(events: seq<Event>, position: Point)
    ensures GeometryOf(Run(events), position) == NULL_RECT
      <==> !AnyCurrent(events) || (CurrentOf(Run(events)).size == Size(0, 0) && position == Point(0, 0))
  {
    CurrentModeIsTheLast(events);
    CurrentOfMember(Run(events));
  }

  /** geometry() is the position of the output with the size of the last Current event, and a default
      rectangle before the first. */
  lemma {:induction false} GeometryExactly(events: seq<Event>, position: Point)
    ensures !AnyCurrent(events) ==> GeometryOf(Run(events), position) == Rect(0, 0, 0, 0)
    ensures forall i | 0 <= i < |events| && LastCurrent(events, i) ::
      GeometryOf(Run(events), position) == Rect(position.x, position.y, events[i].width, events[i].height)
  {
    CurrentModeIsTheLast(events);
  }

  /** With a current mode announced, the geometry can still be a default rectangle. */
  lemma GeometryCanBeNull()
    ensures var events := [Event(1, 0, 0, 60000, 7)];
      && AnyCurrent(events) && CurrentOf(Run(events)) == Mode(Size(0, 0), 60000, true, false, true, 7)
      && GeometryOf(Run(events), Point(0, 0)) == Rect(0, 0, 0, 0)
  {
    var events := [Event(1, 0, 0, 60000, 7)];
    assert IsCurrent(events, 0) && LastCurrent(events, 0);
    CurrentModeIsTheLast(events);
    GeometryNullExactly(events, Point(0, 0));
  }

  /** Some event announced a mode of that size and refresh rate. */
  ghost predicate AnnouncedBefore(events: seq<Event>, key: (Size, int)) {
    exists i | 0 <= i < |events| ::
      events[i].width == key.0.width && events[i].height == key.0.height && events[i].refresh == key.1
  }

  lemma {:induction false} ClearSignalsOfOne(modes: seq<Mode>)
    requires forall i, j | 0 <= i < j < |modes| :: !(modes[i].current && modes[j].current)
    ensures ClearSignals(modes) == if HasCurrent(modes) then [ModeChanged(CurrentOf(modes).Cleared())] else []
  {
    if modes != [] {
      var before, m := modes[..|modes| - 1], modes[|modes| - 1];
      assert modes == before + [m];
      ClearSignalsOfOne(before);
      CurrentOfAppend(before, m);
      assert HasCurrent(modes) <==> HasCurrent(before) || m.current by {
        assert forall x :: x in modes <==> x in before || x == m;
      }
    }
  }

  lemma {:induction false} RunSignalsAppend(events: seq<Event>, e: Event)
    ensures RunSignals(events + [e]) == RunSignals(events) + Signals(Run(events), e.Announced())
  {
    assert (events + [e])[..|events|] == events;
  }

  /** A Current event announces the mode that stops being current, if there is one, without its flag,
      and then the new mode: as changed if its size and refresh rate were announced before, else as added. */
  lemma {:induction false} SwitchSignals(events: seq<Event>, e: Event)
    requires e.flags & 1 != 0
    ensures var mode := Mode(Size(e.width, e.height), e.refresh, true, e.flags & 2 != 0, true, e.id);
      RunSignals(events + [e]) == RunSignals(events) +
        ((if AnyCurrent(events) then [ModeChanged(CurrentOf(Run(events)).(current := false))] else [])
        + [if AnnouncedBefore(events, (Size(e.width, e.height), e.refresh)) then ModeChanged(mode)
           else ModeAdded(mode)])
  {
    AnnouncedIs(e);
    RunSignalsAppend(events, e);
    AtMostOneCurrent(events);
    CurrentModeIsTheLast(events);
    ClearSignalsOfOne(Run(events));
    ListedAreTheAnnounced(events, e.Announced().Key());
    assert Listed(Run(events), e.Announced().Key()) <==> e.Announced().Key() in Keys(Run(events));
  }

  /** Any other event announces its mode as added, whether or not it was announced before. */
  lemma {:induction false} OtherSignals(events: seq<Event>, e: Event)
    requires e.flags & 1 == 0
    ensures RunSignals(events + [e]) == RunSignals(events)
      + [ModeAdded(Mode(Size(e.width, e.height), e.refresh, false, e.flags & 2 != 0, true, e.id))]
  {
    AnnouncedIs(e);
    RunSignalsAppend(events, e);
  }

  // ---------- Which modes are listed, and which were announced as added ----------

  function AddedKeys(log: seq<Signal>): set<(Size, int)> {
    set s | s in log && s.ModeAdded? :: s.mode.Key()
  }

  function Keys(modes: seq<Mode>): set<(Size, int)> {
    set m | m in modes :: m.Key()
  }

  lemma KeysAppend(modes: seq<Mode>, m: Mode)
    ensures Keys(modes + [m]) == Keys(modes) + {m.Key()}
  {
    assert forall x :: x in modes + [m] <==> x in modes || x == m;
    assert m in modes + [m];
  }

  lemma {:induction false} OthersKeys(modes: seq<Mode>, key: (Size, int))
    ensures Keys(Others(modes, key)) == Keys(modes) - {key}
  {
    if modes != [] {
      var before, m := modes[..|modes| - 1], modes[|modes| - 1];
      assert modes == before + [m];
      OthersKeys(before, key);
      KeysAppend(before, m);
      KeysAppend(Others(before, key), m.Cleared());
    }
  }

  lemma {:induction false} ClearSignalsAddNothing(modes: seq<Mode>)
    ensures forall s | s in ClearSignals(modes) :: s.ModeChanged?
  {
    if modes != [] {
      ClearSignalsAddNothing(modes[..|modes| - 1]);
    }
  }

  lemma AddedKeysStep(modes: seq<Mode>, mode: Mode, log: seq<Signal>)
    requires AddedKeys(log) == Keys(modes)
    ensures Keys(Added(modes, mode)) == Keys(modes) + {mode.Key()}
    ensures AddedKeys(log + Signals(modes, mode)) == Keys(modes) + {mode.Key()}
  {
    OthersKeys(modes, mode.Key());
    ClearSignalsAddNothing(modes);
    var kept := Kept(modes, mode);
    KeysAppend(kept, mode);
    var signals := Signals(modes, mode);
    assert AddedKeys(log + signals) == AddedKeys(log) + AddedKeys(signals);
    assert Listed(modes, mode.Key()) <==> mode.Key() in Keys(modes);
    var last := signals[|signals| - 1];
    assert forall s | s in signals && s.ModeAdded? :: s == last;
    assert last in signals;
    assert AddedKeys(signals) == if last.ModeAdded? then {mode.Key()} else {};
  }

  /** The listed size and refresh rate pairs are exactly those of all modeAdded signals so far. */
  lemma {:induction false} ListedAreTheAdded(events: seq<Event>)
    ensures Keys(Run(events)) == AddedKeys(RunSignals(events))
  {
    if events != [] {
      var before, e := events[..|events| - 1], events[|events| - 1];
      ListedAreTheAdded(before);
      AddedKeysStep(Run(before), e.Announced(), RunSignals(before));
    }
  }

  /** Although one event may erase several entries, no announced pair is ever lost. */
  lemma {:induction false} ListedAreTheAnnounced(events: seq<Event>, key: (Size, int))
    ensures key in Keys(Run(events)) <==> AnnouncedBefore(events, key)
  {
    if events != [] {
      var n := |events| - 1;
      var before := events[..n];
      ListedAreTheAnnounced(before, key);
      assert Keys(Run(events)) == Keys(Run(before)) + {events[n].Announced().Key()} by {
        ListedAreTheAdded(before);
        AddedKeysStep(Run(before), events[n].Announced(), RunSignals(before));
      }
      AnnouncedIs(events[n]);
      assert forall i | 0 <= i < n :: before[i] == events[i];
    }
  }
}
