/**
 * Registry: the list of announced globals, the lookups derived from it, and version-clamped binding.
 * The events are those of wl_registry in Appendix A of The Wayland Protocol.
 */
module Registry {
  import opened Lists

  /** Interfaces are numbered; 0 is Interface::Unknown. */
  type Interface = nat
  const UNKNOWN: Interface := 0

  type UInt32 = x: int | 0 <= x < 0x1_0000_0000

  /** One supported interface: its protocol name and the highest version the library knows. */
  datatype Supported = Supported(interface: Interface, name: string, maxVersion: UInt32)

  datatype Data = Data(interface: Interface, name: UInt32, version: UInt32)

  datatype Announced = Announced(name: UInt32, version: UInt32)

  datatype Signal =
    | InterfaceAnnounced(protocol: string, name: UInt32, version: UInt32)
    | InterfaceRemoved(name: UInt32)
    | DedicatedAnnounced(interface: Interface, name: UInt32, version: UInt32)
    | DedicatedRemoved(interface: Interface, name: UInt32)

  datatype Event =
    | Global(name: UInt32, protocol: string, version: UInt32)
    | GlobalRemove(name: UInt32)

  /** The table of supported interfaces never lists Unknown, nor an interface twice. */
  ghost predicate TableOk(table: seq<Supported>) {
    && (forall t | t in table :: t.interface != UNKNOWN)
    && forall i, j | 0 <= i < j < |table| :: table[i].interface != table[j].interface
  }

  function NameToInterface(table: seq<Supported>, protocol: string): (i: Interface)
    ensures i != UNKNOWN ==> exists t | t in table :: t.interface == i && t.name == protocol
  {
    if table == [] then UNKNOWN
    else if table[0].name == protocol then table[0].interface
    else NameToInterface(table[1..], protocol)
  }

  /** A protocol name is unknown exactly when the table has no entry for it. */
  lemma {:induction false} UnknownExactly(table: seq<Supported>, protocol: string)
    requires TableOk(table)
    ensures NameToInterface(table, protocol) == UNKNOWN <==> forall t | t in table :: t.name != protocol
  {
    if table != [] && table[0].name != protocol {
      assert forall t | t in table[1..] :: t in table;
      UnknownExactly(table[1..], protocol);
      assert forall t :: t in table <==> t == table[0] || t in table[1..];
    }
  }

  /** If several entries have the name, the first one counts. */
  lemma {:induction false} NameIsFirst(table: seq<Supported>, protocol: string, i: nat)
    requires i < |table| && table[i].name == protocol && forall j | 0 <= j < i :: table[j].name != protocol
    ensures NameToInterface(table, protocol) == table[i].interface
  {
    if i > 0 {
      NameIsFirst(table[1..], protocol, i - 1);
    }
  }

  function MaxVersion(table: seq<Supported>, interface: Interface): UInt32 {
    if table == [] then 0
    else if table[0].interface == interface then table[0].maxVersion
    else MaxVersion(table[1..], interface)
  }

  lemma {:induction false} MaxVersionExactly(table: seq<Supported>, i: nat)
    requires TableOk(table) && i < |table|
    ensures MaxVersion(table, table[i].interface) == table[i].maxVersion
  {
    if i > 0 {
      assert forall t | t in table[1..] :: t in table;
      MaxVersionExactly(table[1..], i - 1);
    }
  }

  lemma {:induction false} MaxVersionOfOthers(table: seq<Supported>, interface: Interface)
    requires forall t | t in table :: t.interface != interface
    ensures MaxVersion(table, interface) == 0
  {
    if table != [] {
      MaxVersionOfOthers(table[1..], interface);
    }
  }

  // ---------- Searches ----------

  /** The position of the first entry with that name, or -1. */
  function FindName(list: seq<Data>, name: UInt32): (i: int)
    ensures -1 <= i < |list|
    ensures i >= 0 ==> list[i].name == name && forall j | 0 <= j < i :: list[j].name != name
    ensures i == -1 ==> forall d | d in list :: d.name != name
  {
    if list == [] then -1
    else if list[0].name == name then 0
    else
      var rest := FindName(list[1..], name);
      if rest == -1 then -1 else rest + 1
  }

  function Of(list: seq<Data>, interface: Interface): seq<Announced> {
    if list == [] then []
    else
      var d := list[|list| - 1];
      Of(list[..|list| - 1], interface) + (if d.interface == interface then [Announced(d.name, d.version)] else [])
  }

  // ---------- Events ----------

  function Step(table: seq<Supported>, list: seq<Data>, e: Event): seq<Data> {
    match e
    case Global(name, protocol, version) =>
      var i := NameToInterface(table, protocol);
      if i == UNKNOWN then list else list + [Data(i, name, version)]
    case GlobalRemove(name) =>
      var k := FindName(list, name);
      if k == -1 then list else RemoveAt(list, k)
  }

  function Signals(table: seq<Supported>, list: seq<Data>, e: Event): seq<Signal> {
    match e
    case Global(name, protocol, version) =>
      var i := NameToInterface(table, protocol);
      [InterfaceAnnounced(protocol, name, version)]
      + (if i == UNKNOWN then [] else [DedicatedAnnounced(i, name, version)])
    case GlobalRemove(name) =>
      var k := FindName(list, name);
      (if k == -1 then [] else [DedicatedRemoved(list[k].interface, name)]) + [InterfaceRemoved(name)]
  }

  function Run(table: seq<Supported>, events: seq<Event>): seq<Data> {
    if events == [] then [] else Step(table, Run(table, events[..|events| - 1]), events[|events| - 1])
  }

  function RunSignals(table: seq<Supported>, events: seq<Event>): seq<Signal> {
    if events == [] then []
    else
      var before := events[..|events| - 1];
      RunSignals(table, before) + Signals(table, Run(table, before), events[|events| - 1])
  }

  // ---------- The list as a closed form over the history ----------

  /** The entry the i-th event makes, if no later event removes its name. */
  ghost function Entry(table: seq<Supported>, events: seq<Event>, i: nat): (entry: seq<Data>)
    requires i < |events|
    ensures entry == []
      || (events[i].Global? && |entry| == 1
          && entry[0].name == events[i].name && entry[0].version == events[i].version)
  {
    match events[i]
    case Global(name, protocol, version) =>
      var known := NameToInterface(table, protocol);
      if known != UNKNOWN && forall j | i < j < |events| :: events[j] != GlobalRemove(name)
      then [Data(known, name, version)] else []
    case GlobalRemove(_) => []
  }

  ghost function Entries(table: seq<Supported>, events: seq<Event>): seq<seq<Data>> {
    seq(|events|, i requires 0 <= i < |events| => Entry(table, events, i))
  }

  /** The known globals that are never removed, in order of announcement. */
  ghost function Live(table: seq<Supported>, events: seq<Event>): seq<Data> {
    Flatten(Entries(table, events))
  }

  /** No global is announced under the name of one that is still there. */
  ghost predicate UniqueNames(events: seq<Event>) {
    forall i, j | 0 <= i < j < |events| && events[i].Global? && events[j].Global? && events[i].name == events[j].name ::
      exists k | i < k < j :: events[k] == GlobalRemove(events[i].name)
  }

  /** Which entries a further event leaves alone. */
  function Spares(e: Event): Data -> bool {
    (d: Data) => e != GlobalRemove(d.name)
  }

  lemma EntryStep(table: seq<Supported>, events: seq<Event>, e: Event, i: nat)
    requires i < |events|
    ensures Entry(table, events + [e], i) == Keep(Entry(table, events, i), Spares(e))
  {
    var more := events + [e];
    assert forall j | 0 <= j < |events| :: more[j] == events[j];
    assert more[|events|] == e;
    var entry := Entry(table, events, i);
    if entry != [] {
      KeepOne(entry[0], Spares(e));
      assert entry == [entry[0]];
    }
  }

  /** A further event spares or takes what is live, and may add its own entry. */
  lemma LiveStep(table: seq<Supported>, events: seq<Event>, e: Event)
    ensures Live(table, events + [e]) == Keep(Live(table, events), Spares(e)) + Entry(table, events + [e], |events|)
  {
    var parts, more := Entries(table, events), Entries(table, events + [e]);
    forall i | 0 <= i < |events| ensures more[i] == Keep(parts[i], Spares(e)) {
      EntryStep(table, events, e, i);
    }
    FlattenStep(parts, more, Spares(e));
  }

  ghost predicate DistinctNames(list: seq<Data>) {
    forall i, j | 0 <= i < j < |list| :: list[i].name != list[j].name
  }

  /** With distinct names, erasing the first match erases every match. */
  lemma {:induction false} RemovingByName(list: seq<Data>, name: UInt32)
    requires DistinctNames(list)
    ensures Keep(list, Spares(GlobalRemove(name)))
      == (if FindName(list, name) == -1 then list else RemoveAt(list, FindName(list, name)))
  {
    var k := FindName(list, name);
    if k == -1 {
      KeepAll(list, Spares(GlobalRemove(name)));
    } else {
      SplitAt(list, k);
      KeepMiddle(list[..k], list[k], list[k + 1..], Spares(GlobalRemove(name)));
    }
  }

  lemma NamesBeforeRemoval(table: seq<Supported>, events: seq<Event>, e: Event)
    requires UniqueNames(events + [e])
    ensures UniqueNames(events)
    ensures e.Global? ==> forall i | 0 <= i < |events| && events[i].Global? && events[i].name == e.name ::
      exists k | i < k < |events| :: events[k] == GlobalRemove(e.name)
  {
    var more := events + [e];
    assert forall j | 0 <= j < |events| :: more[j] == events[j];
    forall i, j | 0 <= i < j < |events| && events[i].Global? && events[j].Global? && events[i].name == events[j].name
      ensures exists k | i < k < j :: events[k] == GlobalRemove(events[i].name)
    {
      var k :| i < k < j && more[k] == GlobalRemove(more[i].name);
      assert events[k] == GlobalRemove(events[i].name);
    }
    if e.Global? {
      forall i | 0 <= i < |events| && events[i].Global? && events[i].name == e.name
        ensures exists k | i < k < |events| :: events[k] == GlobalRemove(e.name)
      {
        assert more[i].name == more[|events|].name;
        var k :| i < k < |events| && more[k] == GlobalRemove(more[i].name);
        assert events[k] == GlobalRemove(e.name);
      }
    }
  }

  /** A name announced now is not on the list yet. */
  lemma NewName(table: seq<Supported>, events: seq<Event>, e: Event)
    requires UniqueNames(events + [e]) && e.Global?
    ensures forall d | d in Live(table, events) :: d.name != e.name
  {
    NamesBeforeRemoval(table, events, e);
    forall d | d in Live(table, events) ensures d.name != e.name {
      FlattenMember(Entries(table, events), d);
    }
  }

  lemma LastEntry(table: seq<Supported>, events: seq<Event>, e: Event, list: seq<Data>)
    requires e.Global?
    ensures Step(table, list, e) == list + Entry(table, events + [e], |events|)
  {
    assert (events + [e])[|events|] == e;
    assert list + [] == list;
  }

  /** On one connection, where live names are unique, the list holds exactly the known globals that were
      announced and not removed, in order of announcement. */
  lemma {:induction false} ListIsTheLiveGlobals(table: seq<Supported>, events: seq<Event>)
    requires UniqueNames(events)
    ensures Run(table, events) == Live(table, events) && DistinctNames(Run(table, events))
  {
    if events != [] {
      var n := |events| - 1;
      var before, e := events[..n], events[n];
      assert events == before + [e];
      NamesBeforeRemoval(table, before, e);
      ListIsTheLiveGlobals(table, before);
      LiveStep(table, before, e);
      if e.Global? {
        KeepAll(Live(table, before), Spares(e));
        NewName(table, before, e);
        LastEntry(table, before, e, Run(table, before));
        AppendDistinct(Run(table, before), Entry(table, events, n));
      } else {
        RemovingByName(Run(table, before), e.name);
        RemoveKeepsDistinct(Run(table, before), e.name);
      }
    }
  }

  lemma AppendDistinct(list: seq<Data>, entry: seq<Data>)
    requires DistinctNames(list) && |entry| <= 1
    requires entry != [] ==> forall d | d in list :: d.name != entry[0].name
    ensures DistinctNames(list + entry)
  {
  }

  lemma {:induction false} RemoveKeepsDistinct(list: seq<Data>, name: UInt32)
    requires DistinctNames(list)
    ensures FindName(list, name) != -1 ==> DistinctNames(RemoveAt(list, FindName(list, name)))
  {
  }

  // ---------- Lookups and signals ----------

  function AnnouncedCount(log: seq<Signal>, interface: Interface): nat {
    if log == [] then 0
    else
      var x := log[|log| - 1];
      AnnouncedCount(log[..|log| - 1], interface) + (if x.DedicatedAnnounced? && x.interface == interface then 1 else 0)
  }

  function RemovedCount(log: seq<Signal>, interface: Interface): nat {
    if log == [] then 0
    else
      var x := log[|log| - 1];
      RemovedCount(log[..|log| - 1], interface) + (if x.DedicatedRemoved? && x.interface == interface then 1 else 0)
  }

  lemma {:induction false} CountConcat(a: seq<Signal>, b: seq<Signal>, interface: Interface)
    ensures AnnouncedCount(a + b, interface) == AnnouncedCount(a, interface) + AnnouncedCount(b, interface)
    ensures RemovedCount(a + b, interface) == RemovedCount(a, interface) + RemovedCount(b, interface)
  {
    if b == [] {
      assert a + b == a;
    } else {
      assert (a + b)[..|a + b| - 1] == a + b[..|b| - 1];
      CountConcat(a, b[..|b| - 1], interface);
    }
  }

  lemma {:induction false} OfConcat(a: seq<Data>, b: seq<Data>, interface: Interface)
    ensures Of(a + b, interface) == Of(a, interface) + Of(b, interface)
  {
    if b == [] {
      assert a + b == a;
    } else {
      assert (a + b)[..|a + b| - 1] == a + b[..|b| - 1];
      OfConcat(a, b[..|b| - 1], interface);
    }
  }

  lemma {:induction false} OfOne(d: Data, interface: Interface)
    ensures Of([d], interface) == if d.interface == interface then [Announced(d.name, d.version)] else []
  {
    assert [d][..0] == [];
  }

  lemma {:induction false} OfRemoveAt(list: seq<Data>, k: nat, interface: Interface)
    requires k < |list|
    ensures |Of(RemoveAt(list, k), interface)|
      == |Of(list, interface)| - (if list[k].interface == interface then 1 else 0)
  {
    SplitAt(list, k);
    OfConcat(list[..k], [list[k]] + list[k + 1..], interface);
    OfConcat([list[k]], list[k + 1..], interface);
    OfOne(list[k], interface);
    OfConcat(list[..k], list[k + 1..], interface);
  }

  lemma {:induction false} CountOne(x: Signal, interface: Interface)
    ensures AnnouncedCount([x], interface) == if x.DedicatedAnnounced? && x.interface == interface then 1 else 0
    ensures RemovedCount([x], interface) == if x.DedicatedRemoved? && x.interface == interface then 1 else 0
  {
    assert [x][..0] == [];
  }

  lemma {:induction false} AnnounceBalance(table: seq<Supported>, list: seq<Data>, e: Event, interface: Interface)
    requires e.Global?
    ensures |Of(Step(table, list, e), interface)|
      == |Of(list, interface)| + AnnouncedCount(Signals(table, list, e), interface)
    ensures RemovedCount(Signals(table, list, e), interface) == 0
  {
    var i := NameToInterface(table, e.protocol);
    var first := InterfaceAnnounced(e.protocol, e.name, e.version);
    CountOne(first, interface);
    if i != UNKNOWN {
      var second := DedicatedAnnounced(i, e.name, e.version);
      CountOne(second, interface);
      CountConcat([first], [second], interface);
      OfConcat(list, [Data(i, e.name, e.version)], interface);
      OfOne(Data(i, e.name, e.version), interface);
    } else {
      CountConcat([first], [], interface);
    }
  }

  lemma {:induction false} RemoveBalance(table: seq<Supported>, list: seq<Data>, e: Event, interface: Interface)
    requires e.GlobalRemove?
    ensures |Of(Step(table, list, e), interface)| + RemovedCount(Signals(table, list, e), interface)
      == |Of(list, interface)|
    ensures AnnouncedCount(Signals(table, list, e), interface) == 0
  {
    var k := FindName(list, e.name);
    var last := InterfaceRemoved(e.name);
    CountOne(last, interface);
    if k != -1 {
      var first := DedicatedRemoved(list[k].interface, e.name);
      CountOne(first, interface);
      CountConcat([first], [last], interface);
      OfRemoveAt(list, k, interface);
    } else {
      CountConcat([], [last], interface);
    }
  }

  /** For every interface, the announcements without the removals are the entries it has: no signal is
      missing or repeated, even if names clash. */
  lemma {:induction false} SignalsBalance(table: seq<Supported>, events: seq<Event>, interface: Interface)
    ensures AnnouncedCount(RunSignals(table, events), interface)
      == RemovedCount(RunSignals(table, events), interface) + |Of(Run(table, events), interface)|
  {
    if events != [] {
      var before, e := events[..|events| - 1], events[|events| - 1];
      SignalsBalance(table, before, interface);
      if e.Global? {
        AnnounceBalance(table, Run(table, before), e, interface);
      } else {
        RemoveBalance(table, Run(table, before), e, interface);
      }
      CountConcat(RunSignals(table, before), Signals(table, Run(table, before), e), interface);
    }
  }

  lemma {:induction false} RunSignalsAppend(table: seq<Supported>, events: seq<Event>, e: Event)
    ensures RunSignals(table, events + [e]) == RunSignals(table, events) + Signals(table, Run(table, events), e)
  {
    assert (events + [e])[..|events|] == events;
  }

  /** The i-th table entry is the first one of that protocol name. */
  ghost predicate FirstNamed(table: seq<Supported>, protocol: string, i: nat)
    requires i < |table|
  {
    table[i].name == protocol && forall j | 0 <= j < i :: table[j].name != protocol
  }

  /** The i-th entry is the first one of that name. */
  ghost predicate FirstEntry(list: seq<Data>, name: UInt32, i: nat)
    requires i < |list|
  {
    list[i].name == name && forall j | 0 <= j < i :: list[j].name != name
  }

  /** A global is announced once in general, with its own arguments, and then once more by the signal of its
      interface if the library supports one of that name. */
  lemma {:induction false} AnnouncementSignals(
      table: seq<Supported>, events: seq<Event>, name: UInt32, protocol: string, version: UInt32)
    requires TableOk(table)
    ensures var before, log := RunSignals(table, events), RunSignals(table, events + [Global(name, protocol, version)]);
            var general := InterfaceAnnounced(protocol, name, version);
      && ((forall t | t in table :: t.name != protocol) ==> log == before + [general])
      && (forall i | 0 <= i < |table| && FirstNamed(table, protocol, i) ::
        log == before + ([general] + [DedicatedAnnounced(table[i].interface, name, version)]))
  {
    RunSignalsAppend(table, events, Global(name, protocol, version));
    UnknownExactly(table, protocol);
    forall i | 0 <= i < |table| && FirstNamed(table, protocol, i)
      ensures NameToInterface(table, protocol) == table[i].interface != UNKNOWN
    {
      NameIsFirst(table, protocol, i);
      assert table[i] in table;
    }
  }

  lemma {:induction false} FindsFirst(list: seq<Data>, name: UInt32, i: nat)
    requires i < |list| && FirstEntry(list, name, i)
    ensures FindName(list, name) == i
  {
    assert list[i] in list;
  }

  /** A removal is announced by the signal of the interface of the first entry of that name, if there is one,
      and always once in general afterwards. */
  lemma {:induction false} RemovalSignals(table: seq<Supported>, events: seq<Event>, name: UInt32)
    ensures var list, before := Run(table, events), RunSignals(table, events);
            var log, general := RunSignals(table, events + [GlobalRemove(name)]), InterfaceRemoved(name);
      && ((forall d | d in list :: d.name != name) ==> log == before + [general])
      && (forall i | 0 <= i < |list| && FirstEntry(list, name, i) ::
        log == before + ([DedicatedRemoved(list[i].interface, name)] + [general]))
  {
    var list := Run(table, events);
    RunSignalsAppend(table, events, GlobalRemove(name));
    forall i | 0 <= i < |list| && FirstEntry(list, name, i) ensures FindName(list, name) == i {
      FindsFirst(list, name, i);
    }
    assert [] + [InterfaceRemoved(name)] == [InterfaceRemoved(name)];
    assert FindName(list, name) >= 0 ==> list[FindName(list, name)] in list;
  }

  function LastOf(list: seq<Data>, interface: Interface): Announced {
    var all := Of(list, interface);
    if all != [] then all[|all| - 1] else Announced(0, 0)
  }

  /** The i-th event announces a global of the interface that is still there. */
  ghost predicate LiveGlobal(table: seq<Supported>, events: seq<Event>, interface: Interface, i: nat)
    requires i < |events|
  {
    Entry(table, events, i) != [] && Entry(table, events, i)[0].interface == interface
  }

  lemma LastOfConcat(list: seq<Data>, entry: seq<Data>, interface: Interface)
    requires |entry| <= 1
    ensures LastOf(list + entry, interface) ==
      if entry != [] && entry[0].interface == interface then Announced(entry[0].name, entry[0].version)
      else LastOf(list, interface)
  {
    OfConcat(list, entry, interface);
    if entry != [] {
      OfOne(entry[0], interface);
      assert entry == [entry[0]];
    }
  }

  /** The last part that has an entry of the interface decides. */
  lemma {:induction false} LastOfFlatten(parts: seq<seq<Data>>, interface: Interface, i: nat)
    requires (forall j | 0 <= j < |parts| :: |parts[j]| <= 1) && i < |parts|
    requires parts[i] != [] && parts[i][0].interface == interface
    requires forall j | i < j < |parts| :: parts[j] == [] || parts[j][0].interface != interface
    ensures LastOf(Flatten(parts), interface) == Announced(parts[i][0].name, parts[i][0].version)
  {
    var n := |parts| - 1;
    var before, last := parts[..n], parts[n];
    LastOfConcat(Flatten(before), last, interface);
    if i < n {
      LastOfFlatten(before, interface, i);
    }
  }

  /** An interface has entries exactly when an entry has the interface. */
  lemma {:induction false} OfMembers(list: seq<Data>, interface: Interface)
    ensures Of(list, interface) == [] <==> forall d | d in list :: d.interface != interface
  {
    if list != [] {
      OfMembers(list[..|list| - 1], interface);
    }
  }

  /** The i-th event announces the most recent global of the interface that is still there. */
  ghost predicate LastLiveGlobal(table: seq<Supported>, events: seq<Event>, interface: Interface, i: nat)
    requires i < |events|
  {
    LiveGlobal(table, events, interface, i) && forall j | i < j < |events| :: !LiveGlobal(table, events, interface, j)
  }

  ghost predicate SomeLive(table: seq<Supported>, events: seq<Event>, interface: Interface) {
    exists i | 0 <= i < |events| :: LiveGlobal(table, events, interface, i)
  }

  lemma EntryIsLive(table: seq<Supported>, events: seq<Event>, interface: Interface, i: nat)
    requires i < |events| && LiveGlobal(table, events, interface, i)
    ensures Entry(table, events, i)[0] in Live(table, events)
  {
    FlattenContains(Entries(table, events), i, Entry(table, events, i)[0]);
  }

  lemma LiveIsEntry(table: seq<Supported>, events: seq<Event>, d: Data) returns (i: nat)
    requires d in Live(table, events)
    ensures i < |events| && Entry(table, events, i) == [d] && LiveGlobal(table, events, d.interface, i)
  {
    var parts: seq<seq<Data>> := Entries(table, events);
    FlattenMember(parts, d);
    i :| 0 <= i < |parts| && d in parts[i];
  }

  lemma {:induction false} LiveInterface(table: seq<Supported>, events: seq<Event>, interface: Interface)
    ensures Of(Live(table, events), interface) != [] <==> SomeLive(table, events, interface)
  {
    var live := Live(table, events);
    OfMembers(live, interface);
    if d: Data :| d in live && d.interface == interface {
      var i := LiveIsEntry(table, events, d);
    }
    if i :| 0 <= i < |events| && LiveGlobal(table, events, interface, i) {
      EntryIsLive(table, events, interface, i);
    }
  }

  /** interface(i) is the most recently announced global of that interface that is still there, and
      {0, 0} without entries when there is none; hasInterface(i) tells which. */
  lemma {:induction false} InterfaceIsTheLastLive(table: seq<Supported>, events: seq<Event>, interface: Interface)
    requires UniqueNames(events)
    ensures Of(Run(table, events), interface) != [] <==> SomeLive(table, events, interface)
    ensures !SomeLive(table, events, interface) ==> LastOf(Run(table, events), interface) == Announced(0, 0)
    ensures forall i | 0 <= i < |events| && LastLiveGlobal(table, events, interface, i) ::
      LastOf(Run(table, events), interface) == Announced(events[i].name, events[i].version)
  {
    ListIsTheLiveGlobals(table, events);
    LiveInterface(table, events, interface);
    var parts: seq<seq<Data>> := Entries(table, events);
    forall i | 0 <= i < |events| && LastLiveGlobal(table, events, interface, i)
      ensures LastOf(Run(table, events), interface) == Announced(events[i].name, events[i].version)
    {
      forall j | i < j < |parts| ensures parts[j] == [] || parts[j][0].interface != interface {
        assert !LiveGlobal(table, events, interface, j);
      }
      LastOfFlatten(parts, interface, i);
    }
  }

  // ---------- Binding ----------

  /** The version a bind asks for: what the caller wants, as far as the library supports it. */
  function Clamp(table: seq<Supported>, interface: Interface, requested: UInt32): (v: UInt32)
    ensures v <= requested && v <= MaxVersion(table, interface)
  {
    if MaxVersion(table, interface) < requested then MaxVersion(table, interface) else requested
  }

  /** For a supported interface that is the greatest version that is at most the requested one and at most
      the one in the table; for any other interface it is 0. */
  lemma {:induction false} ClampExactly(table: seq<Supported>, interface: Interface, requested: UInt32)
    requires TableOk(table)
    ensures forall t | t in table && t.interface == interface ::
      var v := Clamp(table, interface, requested);
      v <= requested && v <= t.maxVersion && (v == requested || v == t.maxVersion)
    ensures (forall t | t in table :: t.interface != interface) ==> Clamp(table, interface, requested) == 0
  {
    forall t | t in table && t.interface == interface ensures MaxVersion(table, interface) == t.maxVersion {
      var i :| 0 <= i < |table| && table[i] == t;
      MaxVersionExactly(table, i);
    }
    if forall t | t in table :: t.interface != interface {
      MaxVersionOfOthers(table, interface);
    }
  }

  predicate CanBind(list: seq<Data>, interface: Interface, name: UInt32, version: UInt32) {
    exists d | d in list :: d.interface == interface && d.name == name && d.version >= version
  }

  /** On one connection a bind by name gets through exactly when a global of that name is still there,
      has the interface, and was announced with at least the clamped version. */
  lemma {:induction false} BindExactly(
      table: seq<Supported>, events: seq<Event>, interface: Interface, name: UInt32, requested: UInt32)
    requires UniqueNames(events)
    ensures CanBind(Run(table, events), interface, name, Clamp(table, interface, requested)) <==>
      exists i | 0 <= i < |events| :: Serves(table, events, interface, name, Clamp(table, interface, requested), i)
  {
    var version := Clamp(table, interface, requested);
    ListIsTheLiveGlobals(table, events);
    if CanBind(Run(table, events), interface, name, version) {
      var d: Data :| d in Live(table, events) && d.interface == interface && d.name == name && d.version >= version;
      var i := LiveIsEntry(table, events, d);
      assert Serves(table, events, interface, name, version, i);
    }
    if i :| 0 <= i < |events| && Serves(table, events, interface, name, version, i) {
      EntryIsLive(table, events, interface, i);
    }
  }

  /** The i-th event announces a global that is still there and can serve such a bind. */
  ghost predicate Serves(
      table: seq<Supported>, events: seq<Event>, interface: Interface, name: UInt32, version: UInt32, i: nat)
    requires i < |events|
  {
    LiveGlobal(table, events, interface, i) && events[i].name == name && events[i].version >= version
  }

  // ---------- The object ----------

  class Registry {
    const table: seq<Supported>
    var interfaces: seq<Data>
    ghost var log: seq<Signal>
    ghost var history: seq<Event>
    ghost var binds: seq<(UInt32, Interface, UInt32)>   // the bind requests sent

    ghost predicate Valid()
      reads this
    {
      TableOk(table) && interfaces == Run(table, history) && log == RunSignals(table, history)
    }

    constructor (table: seq<Supported>)
      requires TableOk(table)
      ensures Valid() && this.table == table && history == [] && binds == []
    {
      this.table := table;
      interfaces, log, history, binds := [], [], [], [];
    }

    /** The announcement of one global. `slot` is what an application slot connected to the dedicated
        signal does: bind the global at the given version as soon as it hears of it. Such a bind gets
        through for every version up to the announced one. */
    method HandleAnnounce(name: UInt32, protocol: string, version: UInt32, slot: Option<UInt32>)
      requires Valid()
      modifies this`interfaces, this`log, this`history, this`binds
      ensures Valid() && history == old(history) + [Global(name, protocol, version)]
      ensures log == old(log) + Signals(table, old(interfaces), Global(name, protocol, version))
      ensures var i := NameToInterface(table, protocol);
        if i == UNKNOWN || slot == None then binds == old(binds)
        else slot.value <= version ==> binds == old(binds) + [(name, i, Clamp(table, i, slot.value))]
    {
      var i := NameToInterface(table, protocol);
      log := log + [InterfaceAnnounced(protocol, name, version)];
      if i != UNKNOWN {
        AppendAndTell(i, name, version, slot);
        assert log == old(log)
          + ([InterfaceAnnounced(protocol, name, version)] + [DedicatedAnnounced(i, name, version)]);
      } else {
        assert log == old(log) + ([InterfaceAnnounced(protocol, name, version)] + []);
      }
      Record(Global(name, protocol, version));
    }

    /** The entry is on the list before the dedicated signal is emitted. */
    method AppendAndTell(i: Interface, name: UInt32, version: UInt32, slot: Option<UInt32>)
      modifies this`interfaces, this`log, this`binds
      ensures interfaces == old(interfaces) + [Data(i, name, version)]
      ensures log == old(log) + [DedicatedAnnounced(i, name, version)]
      ensures slot == None ==> binds == old(binds)
      ensures slot.Some? && slot.value <= version ==>
        binds == old(binds) + [(name, i, Clamp(table, i, slot.value))]
    {
      Append(Data(i, name, version));
      EmitAnnounced(i, name, version, slot);
    }

    method Append(data: Data)
      modifies this`interfaces
      ensures interfaces == old(interfaces) + [data]
      ensures data in interfaces
    {
      interfaces := interfaces + [data];
    }

    /** The dedicated announced signal, and the slot that runs while it is emitted. */
    method EmitAnnounced(interface: Interface, name: UInt32, version: UInt32, slot: Option<UInt32>)
      requires Data(interface, name, version) in interfaces
      modifies this`log, this`binds
      ensures log == old(log) + [DedicatedAnnounced(interface, name, version)]
      ensures slot == None ==> binds == old(binds)
      ensures slot.Some? && slot.value <= version ==>
        binds == old(binds) + [(name, interface, Clamp(table, interface, slot.value))]
    {
      log := log + [DedicatedAnnounced(interface, name, version)];
      if slot.Some? {
        var bound := Bind(interface, name, slot.value);
      }
    }

    method HandleRemove(name: UInt32)
      requires Valid()
      modifies this`interfaces, this`log, this`history
      ensures Valid() && history == old(history) + [GlobalRemove(name)]
      ensures log == old(log) + Signals(table, old(interfaces), GlobalRemove(name))
    {
      var it := FindName(interfaces, name);
      if it != -1 {
        var data := interfaces[it];
        interfaces := RemoveAt(interfaces, it);
        log := log + [DedicatedRemoved(data.interface, data.name)];
      }
      log := log + [InterfaceRemoved(name)];
      Record(GlobalRemove(name));
    }

    /** Once the fields have followed the event, it is part of the history. */
    ghost method Record(e: Event)
      requires TableOk(table) && interfaces == Step(table, Run(table, history), e)
      requires log == RunSignals(table, history) + Signals(table, Run(table, history), e)
      modifies this`history
      ensures Valid() && history == old(history) + [e]
    {
      history := history + [e];
      assert history[..|history| - 1] == old(history);
    }

    method HasInterface(interface: Interface) returns (r: bool)
      ensures r <==> Of(interfaces, interface) != []
    {
      for i := 0 to |interfaces|
        invariant Of(interfaces[..i], interface) == []
      {
        assert interfaces[..i + 1] == interfaces[..i] + [interfaces[i]];
        OfConcat(interfaces[..i], [interfaces[i]], interface);
        OfOne(interfaces[i], interface);
        if interfaces[i].interface == interface {
          assert interfaces == interfaces[..i + 1] + interfaces[i + 1..];
          OfConcat(interfaces[..i + 1], interfaces[i + 1..], interface);
          return true;
        }
      }
      assert interfaces[..|interfaces|] == interfaces;
      return false;
    }

    method Interfaces(interface: Interface) returns (r: seq<Announced>)
      ensures r == Of(interfaces, interface)
    {
      r := [];
      for i := 0 to |interfaces|
        invariant r == Of(interfaces[..i], interface)
      {
        assert interfaces[..i + 1] == interfaces[..i] + [interfaces[i]];
        OfConcat(interfaces[..i], [interfaces[i]], interface);
        OfOne(interfaces[i], interface);
        if interfaces[i].interface == interface {
          r := r + [Announced(interfaces[i].name, interfaces[i].version)];
        }
      }
      assert interfaces[..|interfaces|] == interfaces;
    }

    method Interface(interface: Interface) returns (r: Announced)
      ensures r == LastOf(interfaces, interface)
    {
      var all := Interfaces(interface);
      if all != [] {
        return all[|all| - 1];
      }
      return Announced(0, 0);
    }

    method InterfaceForName(name: UInt32) returns (r: Interface)
      ensures r ==
        if FindName(interfaces, name) == -1 then UNKNOWN else interfaces[FindName(interfaces, name)].interface
    {
      var it := FindName(interfaces, name);
      r := if it == -1 then UNKNOWN else interfaces[it].interface;
    }

    /** A bind of one interface by name. The request reaches the compositor exactly when a listed entry
        has that name and interface and at least the clamped version, which is then the one sent. */
    method Bind(interface: Interface, name: UInt32, requested: UInt32) returns (bound: bool)
      modifies this`binds
      ensures bound <==> CanBind(interfaces, interface, name, Clamp(table, interface, requested))
      ensures binds == old(binds) + (if bound then [(name, interface, Clamp(table, interface, requested))] else [])
    {
      var version := Clamp(table, interface, requested);
      for i := 0 to |interfaces|
        invariant binds == old(binds)
        invariant !CanBind(interfaces[..i], interface, name, version)
      {
        if interfaces[i].interface == interface && interfaces[i].name == name && interfaces[i].version >= version {
          binds := binds + [(name, interface, version)];
          return true;
        }
        assert interfaces[..i + 1] == interfaces[..i] + [interfaces[i]];
      }
      assert interfaces[..|interfaces|] == interfaces;
      return false;
    }
  }
}
