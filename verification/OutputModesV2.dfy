/**
 * OutputDeviceV2 and its DeviceModeV2 objects: which mode is reported as current while modes come, go
 * and change under the list.
 */
module OutputModesV2 {
  import opened Geometry
  import opened Lists

  /** What DeviceModeV2::operator== compares. */
  datatype Properties = Properties(size: Size, refreshRate: int, preferred: bool)

  /** A new mode has an invalid size and 60 Hz. */
  const FRESH := Properties(INVALID_SIZE, 60000, false)

  datatype State<M> = State(modes: seq<M>, current: Option<M>, values: map<M, Properties>, signals: nat)

  datatype Event<M> =
    | ModeAnnounced(m: M)
    | CurrentMode(m: M)
    | SizeEvent(m: M, size: Size)
    | RefreshEvent(m: M, refresh: int)
    | PreferredEvent(m: M)
    | Removed(m: M)

  function Initial<M>(): State<M> {
    State([], None, map[], 0)
  }

  /** The compositor names modes it announced and never removes the last one. */
  ghost predicate Enabled<M>(s: State<M>, e: Event<M>) {
    match e
    case ModeAnnounced(m) => m !in s.modes
    case Removed(m) => m in s.modes && |s.modes| > 1
    case _ => e.m in s.modes
  }

  function SetValue<M>(s: State<M>, m: M, v: Properties): State<M> {
    s.(values := s.values[m := v])
  }

  ghost predicate Inv<M>(s: State<M>) {
    && NoDup(s.modes)
    && (forall m | m in s.modes :: m in s.values)
    && (forall m | m in s.values :: m in s.modes)
    && (s.modes != [] ==> s.current.Some? && s.current.value in s.modes)
    && (s.modes == [] ==> s.current == None)
  }

  /** The properties of a mode; a mode not announced yet would have those of a new one. */
  function ValueOf<M>(s: State<M>, m: M): Properties {
    if m in s.values then s.values[m] else FRESH
  }

  function Step<M>(s: State<M>, e: Event<M>): State<M> {
    match e
    case ModeAnnounced(m) =>
      s.(modes := s.modes + [m], current := Some(m), values := s.values[m := FRESH])
    case CurrentMode(m) =>
      if s.current.Some? && ValueOf(s, m) == ValueOf(s, s.current.value) then s
      else s.(current := Some(m), signals := s.signals + 1)
    case SizeEvent(m, size) => SetValue(s, m, ValueOf(s, m).(size := size))
    case RefreshEvent(m, refresh) => SetValue(s, m, ValueOf(s, m).(refreshRate := refresh))
    case PreferredEvent(m) => SetValue(s, m, ValueOf(s, m).(preferred := true))
    case Removed(m) =>
      var rest := Without(s.modes, m);
      s.(modes := rest, values := s.values - {m},
         current := if s.current == Some(m) && rest != [] then Some(rest[0]) else s.current)
  }

  lemma StepKeepsInv<M>(s: State<M>, e: Event<M>)
    requires Inv(s) && Enabled(s, e)
    ensures Inv(Step(s, e))
    ensures Step(s, e).modes != []
  {
    if e.Removed? {
      WithoutNoDup(s.modes, e.m);
      WithoutMembers(s.modes, e.m);
      assert s.modes[0] != s.modes[1];
    } else if e.ModeAnnounced? {
      AppendNoDup(s.modes, e.m);
    }
  }

  // ---------- Runs ----------

  ghost predicate Legal<M>(trace: seq<Event<M>>)
    decreases |trace|, 0
  {
    trace != [] ==>
      var before, e := trace[..|trace| - 1], trace[|trace| - 1];
      Legal(before) && Enabled(Run(before), e)
  }

  ghost function Run<M>(trace: seq<Event<M>>): State<M>
    requires Legal(trace)
    decreases |trace|, 1
  {
    if trace == [] then Initial() else Step(Run(trace[..|trace| - 1]), trace[|trace| - 1])
  }

  /** On every run, as soon as there is a mode, the current mode is one of the listed modes. */
  lemma {:induction false} CurrentIsListed<M>(trace: seq<Event<M>>)
    requires Legal(trace)
    ensures Inv(Run(trace))
    ensures trace != [] ==> Run(trace).current.Some? && Run(trace).current.value in Run(trace).modes
  {
    if trace != [] {
      CurrentIsListed(trace[..|trace| - 1]);
      StepKeepsInv(Run(trace[..|trace| - 1]), trace[|trace| - 1]);
    }
  }

  /** Right after a current-mode event the reported mode has the size, refresh rate and preference of the
      one it named; it is that very object exactly when it already was, or when the values differed. */
  lemma CurrentAgreesInValue<M>(s: State<M>, m: M)
    requires Inv(s) && Enabled(s, CurrentMode(m))
    ensures var t := Step(s, CurrentMode(m));
      && t.values[t.current.value] == t.values[m]
      && (t.current == Some(m) <==> s.current == Some(m) || s.values[m] != s.values[s.current.value])
      && t.signals == s.signals + (if t.current != s.current then 1 else 0)
  {
  }

  /** currentModeChanged accompanies a change of currentMode() except in exactly two situations: the
      announcement of a mode, which always becomes the current one, and the removal of the current mode.
      It is never emitted without a change. */
  lemma SilentChangesExactly<M>(s: State<M>, e: Event<M>)
    requires Inv(s) && Enabled(s, e)
    ensures var t := Step(s, e);
      && (t.current != s.current && t.signals == s.signals
          <==> e.ModeAnnounced? || (e.Removed? && s.current == Some(e.m)))
      && (t.signals == s.signals || (t.signals == s.signals + 1 && t.current != s.current))
  {
    if e.Removed? {
      WithoutMembers(s.modes, e.m);
      StepKeepsInv(s, e);
    }
  }

  /** The run in which the first mode becomes current, and its successor after its removal, unannounced. */
  lemma CurrentCanChangeSilently<M>(a: M, b: M)
    requires a != b
    ensures var trace := [ModeAnnounced(a), ModeAnnounced(b), Removed(b)];
      && Legal(trace) && Legal(trace[..2])
      && Run(trace[..2]).current == Some(b) && Run(trace).current == Some(a) && Run(trace).signals == 0
  {
    var t0: seq<Event<M>> := [];
    Extend(t0, ModeAnnounced(a));
    var t1 := t0 + [ModeAnnounced(a)];
    Extend(t1, ModeAnnounced(b));
    var t2 := t1 + [ModeAnnounced(b)];
    Extend(t2, Removed(b));
    var trace := [ModeAnnounced(a), ModeAnnounced(b), Removed(b)];
    assert t2 + [Removed(b)] == trace && trace[..2] == t2;
    WithoutConcat([a], [b], b);
    WithoutOne(a, b);
    WithoutOne(b, b);
    assert Run(t2).modes == [a] + [b];
  }

  lemma {:induction false} Extend<M>(trace: seq<Event<M>>, e: Event<M>)
    requires Legal(trace) && Enabled(Run(trace), e)
    ensures Legal(trace + [e]) && Run(trace + [e]) == Step(Run(trace), e)
  {
    assert (trace + [e])[..|trace|] == trace;
  }

  /** The agreement need not last: after two modes of equal value, a named mode that then changes is not
      the reported one. */
  lemma AgreementCanEnd<M>(a: M, b: M)
    requires a != b
    ensures var trace := [ModeAnnounced(a), ModeAnnounced(b), CurrentMode(a), RefreshEvent(a, 50000)];
      && Legal(trace)
      && Run(trace).current == Some(b) && Run(trace).modes == [a, b] && Run(trace).values[b] != Run(trace).values[a]
  {
    var t0: seq<Event<M>> := [];
    Extend(t0, ModeAnnounced(a));
    var t1 := t0 + [ModeAnnounced(a)];
    Extend(t1, ModeAnnounced(b));
    var t2 := t1 + [ModeAnnounced(b)];
    Extend(t2, CurrentMode(a));
    var t3 := t2 + [CurrentMode(a)];
    Extend(t3, RefreshEvent(a, 50000));
    assert t3 + [RefreshEvent(a, 50000)]
      == [ModeAnnounced(a), ModeAnnounced(b), CurrentMode(a), RefreshEvent(a, 50000)];
  }

  // ---------- The list over the history ----------

  /** The mode the i-th event announces, if no later event removes it. */
  ghost function Entry<M>(trace: seq<Event<M>>, i: nat): seq<M>
    requires i < |trace|
  {
    match trace[i]
    case ModeAnnounced(m) => if forall j | i < j < |trace| :: trace[j] != Removed(m) then [m] else []
    case _ => []
  }

  ghost function Entries<M>(trace: seq<Event<M>>): seq<seq<M>> {
    seq(|trace|, i requires 0 <= i < |trace| => Entry(trace, i))
  }

  /** Which modes a further event leaves alone. */
  function Spares<M(==)>(e: Event<M>): M -> bool {
    m => e != Removed(m)
  }

  lemma EntryStep<M>(trace: seq<Event<M>>, e: Event<M>, i: nat)
    requires i < |trace|
    ensures Entry(trace + [e], i) == Keep(Entry(trace, i), Spares(e))
  {
    var more := trace + [e];
    assert forall j | 0 <= j < |trace| :: more[j] == trace[j];
    assert more[|trace|] == e;
    var entry := Entry(trace, i);
    if entry != [] {
      KeepOne(entry[0], Spares(e));
      assert entry == [entry[0]];
    }
  }

  lemma EntriesStep<M>(trace: seq<Event<M>>, e: Event<M>)
    ensures Flatten(Entries(trace + [e]))
      == Keep(Flatten(Entries(trace)), Spares(e)) + (if e.ModeAnnounced? then [e.m] else [])
  {
    var n := |trace|;
    var parts, more := Entries(trace), Entries(trace + [e]);
    forall i | 0 <= i < n ensures more[i] == Keep(parts[i], Spares(e)) {
      EntryStep(trace, e, i);
    }
    FlattenStep(parts, more, Spares(e));
    assert more[n] == if e.ModeAnnounced? then [e.m] else [];
  }

  lemma StepModes<M>(s: State<M>, e: Event<M>)
    requires Inv(s) && Enabled(s, e)
    ensures Step(s, e).modes == Keep(s.modes, Spares(e)) + (if e.ModeAnnounced? then [e.m] else [])
  {
    if e.Removed? {
      WithoutIsKeep(s.modes, e.m, Spares(e));
    } else {
      KeepAll(s.modes, Spares(e));
    }
    assert Keep(s.modes, Spares(e)) + [] == Keep(s.modes, Spares(e));
  }

  /** modes() is exactly the announced and not removed modes, in order of announcement. */
  lemma {:induction false} ModesAreStanding<M>(trace: seq<Event<M>>)
    requires Legal(trace)
    ensures Run(trace).modes == Flatten(Entries(trace))
  {
    if trace != [] {
      var n := |trace| - 1;
      assert trace == trace[..n] + [trace[n]];
      ModesAreStanding(trace[..n]);
      EntriesStep(trace[..n], trace[n]);
      CurrentIsListed(trace[..n]);
      StepModes(Run(trace[..n]), trace[n]);
    }
  }

  lemma CurrentKept<M>(s: State<M>, e: Event<M>, m: M)
    requires Inv(s) && Enabled(s, e) && s.current == Some(m)
    requires !e.ModeAnnounced? && !e.CurrentMode? && e != Removed(m)
    ensures Step(s, e).current == Some(m)
  {
  }

  /** From a current-mode event that takes effect on, the named mode stays current through every property
      change and through the removal of other modes. */
  lemma {:induction false} CurrentStays<M>(trace: seq<Event<M>>, n: nat, m: M)
    requires n <= |trace| && Legal(trace) && Legal(trace[..n]) && Run(trace[..n]).current == Some(m)
    requires forall i | n <= i < |trace| :: !trace[i].ModeAnnounced? && !trace[i].CurrentMode? && trace[i] != Removed(m)
    ensures Run(trace).current == Some(m)
  {
    if n < |trace| {
      var before, e := trace[..|trace| - 1], trace[|trace| - 1];
      assert before[..n] == trace[..n];
      CurrentStays(before, n, m);
      CurrentIsListed(before);
      CurrentKept(Run(before), e, m);
    } else {
      assert trace[..n] == trace;
    }
  }

  /** The run goes on after `trace` without announcing a mode, naming a current one or removing m. */
  ghost predicate Continues<M>(trace: seq<Event<M>>, more: seq<Event<M>>, m: M) {
    && Legal(more) && trace <= more
    && forall i | |trace| <= i < |more| ::
      !more[i].ModeAnnounced? && !more[i].CurrentMode? && more[i] != Removed(m)
  }

  /** The reported mode has the values of m. */
  ghost predicate Agrees<M>(s: State<M>, m: M) {
    && s.current.Some? && m in s.values && s.current.value in s.values
    && s.values[s.current.value] == s.values[m]
  }

  lemma {:induction false} AgreementLasts<M>(trace: seq<Event<M>>, more: seq<Event<M>>, m: M)
    requires Legal(trace) && Run(trace).current == Some(m) && Continues(trace, more, m)
    ensures Agrees(Run(more), m)
  {
    assert more[..|trace|] == trace;
    CurrentStays(more, |trace|, m);
    CurrentIsListed(more);
  }

  /** If another object of equal value is reported, a change of the named mode ends the agreement. */
  lemma AgreementEnds<M>(trace: seq<Event<M>>, m: M) returns (more: seq<Event<M>>)
    requires Legal(trace) && m in Run(trace).modes && Run(trace).current != Some(m)
    ensures Continues(trace, more, m) && !Agrees(Run(more), m)
  {
    CurrentIsListed(trace);
    var s := Run(trace);
    if s.values[s.current.value] == s.values[m] {
      var e := RefreshEvent(m, s.values[m].refreshRate + 1);
      Extend(trace, e);
      more := trace + [e];
    } else {
      more := trace;
    }
  }

  /** After a current-mode event for m, the reported values stay those of m on every continuation without an
      announcement, another current-mode event or the removal of m, exactly if m itself is reported: it
      already was, or its values differed from the reported ones. */
  lemma {:induction false} AgreementLastsExactly<M>(trace: seq<Event<M>>, m: M)
    requires Legal(trace) && Enabled(Run(trace), CurrentMode(m))
    ensures var s := Run(trace);
      && Inv(s)
      && ((forall more | Continues(trace + [CurrentMode(m)], more, m) :: Agrees(Run(more), m))
        <==> s.current == Some(m) || s.values[m] != s.values[s.current.value])
  {
    var s, named := Run(trace), trace + [CurrentMode(m)];
    CurrentIsListed(trace);
    Extend(trace, CurrentMode(m));
    CurrentAgreesInValue(s, m);
    if Run(named).current == Some(m) {
      forall more | Continues(named, more, m) ensures Agrees(Run(more), m) {
        AgreementLasts(named, more, m);
      }
    } else {
      var more := AgreementEnds(named, m);
      assert Continues(named, more, m);
    }
  }

  // ---------- Which mode becomes current, and what its values are ----------

  /** A newly announced mode is the current one. */
  lemma {:induction false} AnnouncedIsCurrent<M>(trace: seq<Event<M>>, m: M)
    requires Legal(trace) && Enabled(Run(trace), ModeAnnounced(m))
    ensures Legal(trace + [ModeAnnounced(m)]) && Run(trace + [ModeAnnounced(m)]).current == Some(m)
  {
    Extend(trace, ModeAnnounced(m));
  }

  /** The i-th event announces a mode that no later event removes, and no earlier event does. */
  ghost predicate EarliestStanding<M>(trace: seq<Event<M>>, i: nat)
    requires i < |trace|
  {
    Standing(trace, i) && forall j | 0 <= j < i :: !Standing(trace, j)
  }

  ghost predicate Standing<M>(trace: seq<Event<M>>, i: nat)
    requires i < |trace|
  {
    trace[i].ModeAnnounced? && forall j | i < j < |trace| :: trace[j] != Removed(trace[i].m)
  }

  /** When the current mode is removed, the earliest announced one that is still there takes its place. */
  lemma {:induction false} FallsBackToTheEarliest<M>(trace: seq<Event<M>>, m: M)
    requires Legal(trace) && Enabled(Run(trace), Removed(m)) && Run(trace).current == Some(m)
    ensures var more := trace + [Removed(m)];
      && Legal(more)
      && exists i | 0 <= i < |more| :: EarliestStanding(more, i) && Run(more).current == Some(more[i].m)
  {
    var more := trace + [Removed(m)];
    CurrentIsListed(trace);
    StepKeepsInv(Run(trace), Removed(m));
    Extend(trace, Removed(m));
    ModesAreStanding(more);
    var parts: seq<seq<M>> := Entries(more);
    var i := FirstPart(parts);
    FlattenFirst(parts, i);
    forall j | 0 <= j < |more| ensures Entry(more, j) == parts[j] && (Standing(more, j) <==> Entry(more, j) != []) {
    }
    assert EarliestStanding(more, i);
  }

  /** The i-th event is the latest one about the size of m since m was announced. */
  ghost predicate LatestSize<M>(trace: seq<Event<M>>, m: M, i: nat)
    requires i < |trace|
  {
    && trace[i].SizeEvent? && trace[i].m == m
    && forall j | i < j < |trace| :: !(trace[j].SizeEvent? && trace[j].m == m) && trace[j] != ModeAnnounced(m)
  }

  ghost predicate LatestRefresh<M>(trace: seq<Event<M>>, m: M, i: nat)
    requires i < |trace|
  {
    && trace[i].RefreshEvent? && trace[i].m == m
    && forall j | i < j < |trace| :: !(trace[j].RefreshEvent? && trace[j].m == m) && trace[j] != ModeAnnounced(m)
  }

  ghost predicate PreferredSince<M>(trace: seq<Event<M>>, m: M, i: nat)
    requires i < |trace|
  {
    trace[i] == PreferredEvent(m) && forall j | i < j < |trace| :: trace[j] != ModeAnnounced(m)
  }

  lemma LatestStep<M>(trace: seq<Event<M>>, e: Event<M>, m: M, i: nat)
    requires i < |trace|
    ensures LatestSize(trace + [e], m, i)
      <==> LatestSize(trace, m, i) && !(e.SizeEvent? && e.m == m) && e != ModeAnnounced(m)
    ensures LatestRefresh(trace + [e], m, i)
      <==> LatestRefresh(trace, m, i) && !(e.RefreshEvent? && e.m == m) && e != ModeAnnounced(m)
    ensures PreferredSince(trace + [e], m, i) <==> PreferredSince(trace, m, i) && e != ModeAnnounced(m)
  {
    var more := trace + [e];
    assert forall j | 0 <= j < |trace| :: more[j] == trace[j];
    assert more[|trace|] == e;
  }

  /** What a step does to the values of a mode that is listed afterwards. */
  lemma StepValues<M>(s: State<M>, e: Event<M>, m: M)
    requires Inv(s) && Enabled(s, e) && m in Step(s, e).modes
    ensures m in Step(s, e).values
    ensures if e == ModeAnnounced(m) then Step(s, e).values[m] == Properties(Size(-1, -1), 60000, false) else
      && m in s.modes && m in s.values
      && Step(s, e).values[m].size == (if e.SizeEvent? && e.m == m then e.size else s.values[m].size)
      && Step(s, e).values[m].refreshRate
        == (if e.RefreshEvent? && e.m == m then e.refresh else s.values[m].refreshRate)
      && Step(s, e).values[m].preferred == (e == PreferredEvent(m) || s.values[m].preferred)
  {
    if e.Removed? { WithoutMembers(s.modes, e.m); }
  }

  ghost predicate SizeIs<M>(trace: seq<Event<M>>, m: M, size: Size) {
    && (forall i | 0 <= i < |trace| && LatestSize(trace, m, i) :: size == trace[i].size)
    && ((forall i | 0 <= i < |trace| :: !LatestSize(trace, m, i)) ==> size == Size(-1, -1))
  }

  lemma SizeIsStep<M>(trace: seq<Event<M>>, e: Event<M>, m: M, size: Size)
    requires e != ModeAnnounced(m) ==> SizeIs(trace, m, size)
    ensures SizeIs(trace + [e], m,
                   if e == ModeAnnounced(m) then Size(-1, -1) else if e.SizeEvent? && e.m == m then e.size else size)
  {
    var more, n := trace + [e], |trace|;
    forall i | 0 <= i < n
      ensures LatestSize(more, m, i)
        <==> LatestSize(trace, m, i) && !(e.SizeEvent? && e.m == m) && e != ModeAnnounced(m)
      ensures more[i] == trace[i]
    {
      LatestStep(trace, e, m, i);
    }
    assert more[n] == e && (LatestSize(more, m, n) <==> e.SizeEvent? && e.m == m);
  }

  /** On every run a listed mode has the size of its latest size event since it was announced, or else an
      invalid one. */
  lemma {:induction false} SizeExactly<M>(trace: seq<Event<M>>, m: M)
    requires Legal(trace) && m in Run(trace).modes
    ensures m in Run(trace).values && SizeIs(trace, m, Run(trace).values[m].size)
  {
    var before, e := trace[..|trace| - 1], trace[|trace| - 1];
    var s := Run(before);
    assert trace == before + [e];
    CurrentIsListed(before);
    StepValues(s, e, m);
    if e != ModeAnnounced(m) {
      SizeExactly(before, m);
    }
    SizeIsStep(before, e, m, if m in s.values then s.values[m].size else Size(-1, -1));
  }

  ghost predicate RefreshIs<M>(trace: seq<Event<M>>, m: M, refresh: int) {
    && (forall i | 0 <= i < |trace| && LatestRefresh(trace, m, i) :: refresh == trace[i].refresh)
    && ((forall i | 0 <= i < |trace| :: !LatestRefresh(trace, m, i)) ==> refresh == 60000)
  }

  lemma RefreshIsStep<M>(trace: seq<Event<M>>, e: Event<M>, m: M, refresh: int)
    requires e != ModeAnnounced(m) ==> RefreshIs(trace, m, refresh)
    ensures RefreshIs(trace + [e], m,
                   if e == ModeAnnounced(m) then 60000 else if e.RefreshEvent? && e.m == m then e.refresh else refresh)
  {
    var more, n := trace + [e], |trace|;
    forall i | 0 <= i < n
      ensures LatestRefresh(more, m, i)
        <==> LatestRefresh(trace, m, i) && !(e.RefreshEvent? && e.m == m) && e != ModeAnnounced(m)
      ensures more[i] == trace[i]
    {
      LatestStep(trace, e, m, i);
    }
    assert more[n] == e && (LatestRefresh(more, m, n) <==> e.RefreshEvent? && e.m == m);
  }

  /** It has the refresh rate of its latest refresh event since then, or else 60 Hz. */
  lemma {:induction false} RefreshExactly<M>(trace: seq<Event<M>>, m: M)
    requires Legal(trace) && m in Run(trace).modes
    ensures m in Run(trace).values && RefreshIs(trace, m, Run(trace).values[m].refreshRate)
  {
    var before, e := trace[..|trace| - 1], trace[|trace| - 1];
    var s := Run(before);
    assert trace == before + [e];
    CurrentIsListed(before);
    StepValues(s, e, m);
    if e != ModeAnnounced(m) {
      RefreshExactly(before, m);
    }
    RefreshIsStep(before, e, m, if m in s.values then s.values[m].refreshRate else 60000);
  }

  ghost predicate PreferredIs<M>(trace: seq<Event<M>>, m: M, preferred: bool) {
    preferred <==> exists i | 0 <= i < |trace| :: PreferredSince(trace, m, i)
  }

  lemma PreferredIsStep<M>(trace: seq<Event<M>>, e: Event<M>, m: M, preferred: bool)
    requires e != ModeAnnounced(m) ==> PreferredIs(trace, m, preferred)
    ensures PreferredIs(trace + [e], m,
                   if e == ModeAnnounced(m) then false else (e == PreferredEvent(m) || preferred))
  {
    var more, n := trace + [e], |trace|;
    forall i | 0 <= i < n
      ensures PreferredSince(more, m, i) <==> PreferredSince(trace, m, i) && e != ModeAnnounced(m)
      ensures more[i] == trace[i]
    {
      LatestStep(trace, e, m, i);
    }
    assert more[n] == e && (PreferredSince(more, m, n) <==> e == PreferredEvent(m));
  }

  /** It is preferred exactly if an event since then said so. */
  lemma {:induction false} PreferredExactly<M>(trace: seq<Event<M>>, m: M)
    requires Legal(trace) && m in Run(trace).modes
    ensures m in Run(trace).values && PreferredIs(trace, m, Run(trace).values[m].preferred)
  {
    var before, e := trace[..|trace| - 1], trace[|trace| - 1];
    var s := Run(before);
    assert trace == before + [e];
    CurrentIsListed(before);
    StepValues(s, e, m);
    if e != ModeAnnounced(m) {
      PreferredExactly(before, m);
    }
    PreferredIsStep(before, e, m, if m in s.values then s.values[m].preferred else false);
  }

  // ---------- The objects ----------

  class DeviceModeV2 {
    var refreshRate: int
    var size: Size
    var preferred: bool

    ghost function View(): Properties
      reads this
    {
      Properties(size, refreshRate, preferred)
    }

    constructor ()
      ensures View() == Properties(Size(-1, -1), 60000, false)
    {
      refreshRate, size, preferred := 60000, INVALID_SIZE, false;
    }

    method HandleSize(width: int, height: int)
      modifies this`size
      ensures size == Size(width, height)
    {
      size := Size(width, height);
    }

    method HandleRefresh(refresh: int)
      modifies this`refreshRate
      ensures refreshRate == refresh
    {
      refreshRate := refresh;
    }

    method HandlePreferred()
      modifies this`preferred
      ensures preferred
    {
      preferred := true;
    }

    /** operator== compares the properties, not the objects. */
    predicate Same(other: DeviceModeV2)
      reads this, other
    {
      size == other.size && refreshRate == other.refreshRate && preferred == other.preferred
    }
  }

  class OutputDeviceV2 {
    var modes: seq<DeviceModeV2>
    var mode: DeviceModeV2?                // not set before the first mode
    ghost var currentModeChanged: nat      // emissions so far

    ghost function View(): State<DeviceModeV2>
      reads this, modes
    {
      State(modes, Opt(mode), map m | m in modes :: m.View(), currentModeChanged)
    }

    constructor ()
      ensures View() == Initial() && Inv(View())
    {
      modes, mode, currentModeChanged := [], null, 0;
    }

    method AddMode() returns (m: DeviceModeV2)
      requires Inv(View())
      modifies this`modes, this`mode
      ensures fresh(m) && View() == Step(old(View()), ModeAnnounced(m)) && Inv(View())
    {
      ghost var before := View();
      m := new DeviceModeV2();
      StepKeepsInv(before, ModeAnnounced(m));
      mode := m;
      modes := modes + [m];
    }

    method HandleCurrentMode(m: DeviceModeV2)
      requires Inv(View()) && m in modes
      modifies this`mode, this`currentModeChanged
      ensures View() == Step(old(View()), CurrentMode(m)) && Inv(View())
    {
      if m.Same(mode) {
        return;
      }
      mode := m;
      currentModeChanged := currentModeChanged + 1;
    }

    /** QList::removeOne. */
    method RemoveOne(m: DeviceModeV2)
      requires NoDup(modes) && m in modes
      modifies this`modes
      ensures modes == Without(old(modes), m)
    {
      RemoveOneIs(modes, m);
      modes := RemoveAt(modes, IndexOf(modes, m));
    }

    method ForgetMode(m: DeviceModeV2)
      requires NoDup(modes) && m in modes
      modifies this`modes
      ensures View() == old(View()).(modes := Without(old(modes), m), values := old(View()).values - {m})
    {
      RemoveOne(m);
      WithoutMembers(old(modes), m);
    }

    /** If m is current, the first remaining mode takes its place. */
    method FallBack(m: DeviceModeV2)
      modifies this`mode
      ensures var s := old(View());
        View() == s.(current := if s.current == Some(m) && s.modes != [] then Some(s.modes[0]) else s.current)
    {
      if mode == m && modes != [] {
        mode := modes[0];
      }
    }

    /** The closure connected to a mode's removed signal. */
    method HandleRemoved(m: DeviceModeV2)
      requires Inv(View()) && m in modes && |modes| > 1
      modifies this`modes, this`mode
      ensures View() == Step(old(View()), Removed(m)) && Inv(View())
    {
      StepKeepsInv(View(), Removed(m));
      ForgetMode(m);
      FallBack(m);
    }

    method HandleSize(m: DeviceModeV2, width: int, height: int)
      requires Inv(View()) && m in modes
      modifies m`size
      ensures View() == Step(old(View()), SizeEvent(m, Size(width, height))) && Inv(View())
    {
      m.HandleSize(width, height);
    }

    method HandleRefresh(m: DeviceModeV2, refresh: int)
      requires Inv(View()) && m in modes
      modifies m`refreshRate
      ensures View() == Step(old(View()), RefreshEvent(m, refresh)) && Inv(View())
    {
      m.HandleRefresh(refresh);
    }

    method HandlePreferred(m: DeviceModeV2)
      requires Inv(View()) && m in modes
      modifies m`preferred
      ensures View() == Step(old(View()), PreferredEvent(m)) && Inv(View())
    {
      m.HandlePreferred();
    }
  }

  function Opt(m: DeviceModeV2?): Option<DeviceModeV2> {
    if m == null then None else Some(m)
  }
}
