/** The virtual desktops of one PlasmaWindow, and what isOnAllDesktops() makes of them. */
module DesktopMembership {
  import opened Lists

  type Id = string

  datatype Event =
    | Entered(id: Id)
    | Left(id: Id)
    | OnAllDesktops(flag: bool)    // the on-all-desktops bit of a state event

  /** From protocol version 8 the desktop list decides. */
  const DESKTOP_LIST_SINCE: nat := 8

  class PlasmaWindow {
    const version: nat
    var plasmaVirtualDesktops: seq<Id>
    var onAllDesktops: bool
    ghost var onAllDesktopsChanged: nat   // emissions so far
    ghost var history: seq<Event>

    ghost predicate Valid()
      reads this
    {
      && plasmaVirtualDesktops == ListAfter(history)
      && onAllDesktops == FlagAfter(history)
      && onAllDesktopsChanged == SignalsAfter(history)
    }

    constructor (version: nat)
      ensures Valid() && history == [] && this.version == version
      ensures plasmaVirtualDesktops == [] && !onAllDesktops && onAllDesktopsChanged == 0
    {
      this.version := version;
      plasmaVirtualDesktops, onAllDesktops := [], false;
      onAllDesktopsChanged, history := 0, [];
    }

    /** Once the fields have followed the event, it is part of the history. */
    ghost method Record(e: Event)
      requires plasmaVirtualDesktops == ListStep(ListAfter(history), e)
      requires onAllDesktops == FlagStep(FlagAfter(history), e)
      requires onAllDesktopsChanged == SignalsAfter(history) + SignalsOf(history, e)
      modifies this`history
      ensures Valid() && history == old(history) + [e]
    {
      history := history + [e];
      assert history[..|history| - 1] == old(history);
    }

    method VirtualDesktopEntered(id: Id)
      requires Valid()
      modifies this
      ensures Valid() && history == old(history) + [Entered(id)]
    {
      plasmaVirtualDesktops := plasmaVirtualDesktops + [id];
      if |plasmaVirtualDesktops| == 1 {
        onAllDesktopsChanged := onAllDesktopsChanged + 1;
      }
      Record(Entered(id));
    }

    method VirtualDesktopLeft(id: Id)
      requires Valid()
      modifies this
      ensures Valid() && history == old(history) + [Left(id)]
    {
      plasmaVirtualDesktops := Without(plasmaVirtualDesktops, id);
      if plasmaVirtualDesktops == [] {
        onAllDesktopsChanged := onAllDesktopsChanged + 1;
      }
      Record(Left(id));
    }

    method SetOnAllDesktops(flag: bool)
      requires Valid()
      modifies this
      ensures Valid() && history == old(history) + [OnAllDesktops(flag)]
    {
      if onAllDesktops != flag {
        onAllDesktops := flag;
        onAllDesktopsChanged := onAllDesktopsChanged + 1;
      }
      Record(OnAllDesktops(flag));
    }

    method IsOnAllDesktops() returns (r: bool)
      requires Valid()
      ensures r == OnAll(version, history)
    {
      r := if version < DESKTOP_LIST_SINCE then onAllDesktops else plasmaVirtualDesktops == [];
    }
  }

  function ListStep(before: seq<Id>, e: Event): seq<Id> {
    match e
    case Entered(id) => before + [id]
    case Left(id) => Without(before, id)
    case OnAllDesktops(_) => before
  }

  function ListAfter(history: seq<Event>): seq<Id> {
    if history == [] then [] else ListStep(ListAfter(history[..|history| - 1]), history[|history| - 1])
  }

  function FlagStep(before: bool, e: Event): bool {
    if e.OnAllDesktops? then e.flag else before
  }

  function FlagAfter(history: seq<Event>): bool {
    if history == [] then false else FlagStep(FlagAfter(history[..|history| - 1]), history[|history| - 1])
  }

  /** Emissions of onAllDesktopsChanged that an event causes. */
  function SignalsOf(history: seq<Event>, e: Event): nat {
    match e
    case Entered(id) => if |ListAfter(history)| == 0 then 1 else 0
    case Left(id) => if Without(ListAfter(history), id) == [] then 1 else 0
    case OnAllDesktops(b) => if b != FlagAfter(history) then 1 else 0
  }

  function SignalsAfter(history: seq<Event>): nat {
    if history == [] then 0
    else
      var before := history[..|history| - 1];
      SignalsAfter(before) + SignalsOf(before, history[|history| - 1])
  }

  function OnAll(version: nat, history: seq<Event>): bool {
    if version < DESKTOP_LIST_SINCE then FlagAfter(history) else ListAfter(history) == []
  }

  // ---------- For every history ----------

  /** The i-th event is an enter of id that no later event took back. */
  ghost predicate StandingEnter(history: seq<Event>, id: Id, i: nat)
    requires i < |history|
  {
    history[i] == Entered(id) && forall j | i < j < |history| :: history[j] != Left(id)
  }

  /** How often id was entered since it last left. */
  function EntersSinceLeft(history: seq<Event>, id: Id): nat {
    if history == [] then 0
    else
      var before := EntersSinceLeft(history[..|history| - 1], id);
      match history[|history| - 1]
      case Entered(other) => if other == id then before + 1 else before
      case Left(other) => if other == id then 0 else before
      case _ => before
  }

  lemma {:induction false} Multiplicity(history: seq<Event>, id: Id)
    ensures multiset(ListAfter(history))[id] == EntersSinceLeft(history, id)
  {
    if history != [] {
      var before := history[..|history| - 1];
      Multiplicity(before, id);
      if history[|history| - 1].Left? {
        WithoutCount(ListAfter(before), history[|history| - 1].id);
      }
    }
  }

  /** A desktop is listed exactly when the latest event naming it was an enter, and then once for
      every enter since it last left. */
  lemma {:induction false} ListedExactly(history: seq<Event>, id: Id)
    ensures id in ListAfter(history) <==> exists i | 0 <= i < |history| :: StandingEnter(history, id, i)
  {
    if history != [] {
      var n := |history| - 1;
      var before, e := history[..n], history[n];
      ListedExactly(before, id);
      forall i | 0 <= i < n ensures StandingEnter(history, id, i) <==> StandingEnter(before, id, i) && e != Left(id) {
      }
      assert StandingEnter(history, id, n) <==> e == Entered(id);
      if e.Left? {
        WithoutMembers(ListAfter(before), e.id);
      }
    }
  }

  /** The desktop the i-th event enters, if no later event leaves it. */
  ghost function Entry(history: seq<Event>, i: nat): seq<Id>
    requires i < |history|
  {
    if history[i].Entered? && (forall j | i < j < |history| :: history[j] != Left(history[i].id))
    then [history[i].id] else []
  }

  ghost function Entries(history: seq<Event>): seq<seq<Id>> {
    seq(|history|, i requires 0 <= i < |history| => Entry(history, i))
  }

  /** Which desktops a further event leaves alone. */
  function Spares(e: Event): Id -> bool {
    (id: Id) => e != Left(id)
  }

  lemma EntryStep(history: seq<Event>, e: Event, i: nat)
    requires i < |history|
    ensures Entry(history + [e], i) == Keep(Entry(history, i), Spares(e))
  {
    var more := history + [e];
    assert forall j | 0 <= j < |history| :: more[j] == history[j];
    assert more[|history|] == e;
    if history[i].Entered? {
      KeepOne(history[i].id, Spares(e));
    }
  }

  lemma EntriesStep(history: seq<Event>, e: Event)
    ensures Flatten(Entries(history + [e]))
      == Keep(Flatten(Entries(history)), Spares(e)) + (if e.Entered? then [e.id] else [])
  {
    var parts, more := Entries(history), Entries(history + [e]);
    forall i | 0 <= i < |history| ensures more[i] == Keep(parts[i], Spares(e)) {
      EntryStep(history, e, i);
    }
    FlattenStep(parts, more, Spares(e));
    assert more[|history|] == if e.Entered? then [e.id] else [];
  }

  lemma {:induction false} StepKeeps(list: seq<Id>, e: Event)
    ensures ListStep(list, e) == Keep(list, Spares(e)) + (if e.Entered? then [e.id] else [])
  {
    if e.Left? {
      WithoutIsKeep(list, e.id, Spares(e));
    } else {
      KeepAll(list, Spares(e));
    }
    assert Keep(list, Spares(e)) + [] == Keep(list, Spares(e));
  }

  /** The list is the desktops entered and not left since, in the order of the enters. */
  lemma {:induction false} ListIsTheStandingEnters(history: seq<Event>)
    ensures ListAfter(history) == Flatten(Entries(history))
  {
    if history != [] {
      var before, e := history[..|history| - 1], history[|history| - 1];
      assert history == before + [e];
      ListIsTheStandingEnters(before);
      EntriesStep(before, e);
      StepKeeps(ListAfter(before), e);
    }
  }

  /** The i-th event is the latest one about the state bit. */
  ghost predicate LatestFlag(history: seq<Event>, i: nat)
    requires i < |history|
  {
    history[i].OnAllDesktops? && forall j | i < j < |history| :: !history[j].OnAllDesktops?
  }

  lemma {:induction false} FlagIsTheLatest(history: seq<Event>)
    ensures FlagAfter(history) <==> exists i | 0 <= i < |history| :: LatestFlag(history, i) && history[i].flag
  {
    if history != [] {
      var n := |history| - 1;
      var before, e := history[..n], history[n];
      FlagIsTheLatest(before);
      forall i | 0 <= i < n ensures LatestFlag(history, i) <==> LatestFlag(before, i) && !e.OnAllDesktops? {
      }
      assert LatestFlag(history, n) <==> e.OnAllDesktops?;
    }
  }

  /** Below version 8 the latest state bit says whether a window is on all desktops, and it is off at first;
      from version 8 it is on all desktops exactly if it is on none in particular. */
  lemma {:induction false} OnAllExactly(version: nat, history: seq<Event>)
    ensures OnAll(version, history) <==>
      if version < 8 then exists i | 0 <= i < |history| :: LatestFlag(history, i) && history[i].flag
      else forall i | 0 <= i < |history| && history[i].Entered? :: !StandingEnter(history, history[i].id, i)
  {
    FlagIsTheLatest(history);
    if i :| 0 <= i < |history| && history[i].Entered? && StandingEnter(history, history[i].id, i) {
      ListedExactly(history, history[i].id);
    }
    if ListAfter(history) != [] {
      ListedExactly(history, ListAfter(history)[0]);
    }
  }

  /** Every change of isOnAllDesktops() is announced, at every protocol version. */
  lemma {:induction false} EveryChangeIsAnnounced(version: nat, history: seq<Event>, e: Event)
    requires OnAll(version, history + [e]) != OnAll(version, history)
    ensures SignalsAfter(history + [e]) == SignalsAfter(history) + 1
  {
    assert (history + [e])[..|history|] == history;
    if e.Left? {
      assert Without([], e.id) == [];
    }
  }

  /** When an announcement comes without a change. From version 8: for a leave while no desktop is listed,
      and for a change of the state bit, which no longer counts. Below: for an enter while no desktop is
      listed, and for a leave after which none is, as there the list does not count. */
  lemma {:induction false} SpuriousExactly(version: nat, history: seq<Event>, e: Event)
    ensures SignalsAfter(history + [e]) in {SignalsAfter(history), SignalsAfter(history) + 1}
    ensures
      && SignalsAfter(history + [e]) != SignalsAfter(history)
      && OnAll(version, history + [e]) == OnAll(version, history)
      <==>
        if version >= 8 then
          (e.Left? && ListAfter(history) == []) || (e.OnAllDesktops? && e.flag != FlagAfter(history))
        else
          (e.Entered? && ListAfter(history) == []) || (e.Left? && ListAfter(history + [e]) == [])
  {
    assert (history + [e])[..|history|] == history;
    if e.Left? {
      assert Without([], e.id) == [];
    }
  }

  /** The first event of a window, a leave, is announced as a change although nothing changed. */
  lemma SpuriousLeave(version: nat, id: Id)
    ensures SignalsAfter([Left(id)]) == SignalsAfter([]) + 1
    ensures OnAll(version, [Left(id)]) == OnAll(version, [])
  {
    SpuriousExactly(version, [], Left(id));
    assert [] + [Left(id)] == [Left(id)];
    assert [Left(id)][..0] == [];
  }
}
