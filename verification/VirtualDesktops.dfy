/** PlasmaVirtualDesktopManagement: an ordered replica of the compositor's desktop list. */
module VirtualDesktops {
  import opened Lists

  type Id = string

  /** What the compositor announces. D stands for the objects; Created carries the one the client makes. */
  datatype Event<D> =
    | Created(id: Id, position: nat, desktop: D)
    | Removed(id: Id)
    | Rows(rows: nat)

  function InsertAt<T>(s: seq<T>, i: nat, x: T): seq<T>
    requires i <= |s|
  {
    s[..i] + [x] + s[i..]
  }

  // ---------- The compositor's side ----------

  /** The compositor announces non-empty fresh ids at positions that exist, and removes listed ids. */
  ghost predicate Sensible<D>(ids: seq<Id>, e: Event<D>) {
    match e
    case Created(id, position, _) => id != [] && id !in ids && position <= |ids|
    case Removed(id) => id in ids
    case Rows(_) => true
  }

  /** The compositor's list after a change; a change that makes no sense is not a change. */
  function ServerStep<D>(ids: seq<Id>, e: Event<D>): seq<Id> {
    match e
    case Created(id, position, _) => if position <= |ids| then ids[..position] + [id] + ids[position..] else ids
    case Removed(id) => if id in ids then ids[..IndexOf(ids, id)] + ids[IndexOf(ids, id) + 1..] else ids
    case Rows(_) => ids
  }

  /** Inserting puts the element at the position and leaves the rest in order. */
  lemma InsertExactly<T>(s: seq<T>, i: nat, x: T)
    requires i <= |s|
    ensures |InsertAt(s, i, x)| == |s| + 1 && InsertAt(s, i, x)[i] == x
    ensures InsertAt(s, i, x)[..i] == s[..i] && InsertAt(s, i, x)[i + 1..] == s[i..]
    ensures RemoveAt(InsertAt(s, i, x), i) == s
  {
    assert RemoveAt(InsertAt(s, i, x), i) == s[..i] + s[i..];
  }

  lemma InsertMembers<T>(s: seq<T>, i: nat, x: T)
    requires i <= |s|
    ensures forall y | y in InsertAt(s, i, x) :: y == x || y in s
    ensures forall y | y in s :: y in InsertAt(s, i, x)
    ensures x in InsertAt(s, i, x)
  {
    var r := InsertAt(s, i, x);
    assert r[i] == x;
    forall y | y in s ensures y in r {
      var k :| 0 <= k < |s| && s[k] == y;
      assert r[if k < i then k else k + 1] == y;
    }
  }

  lemma RemoveMembers<T>(s: seq<T>, i: nat)
    requires i < |s|
    ensures forall y | y in s && y != s[i] :: y in RemoveAt(s, i)
  {
    forall y | y in s && y != s[i] ensures y in RemoveAt(s, i) {
      var k :| 0 <= k < |s| && s[k] == y;
      assert RemoveAt(s, i)[if k < i then k else k - 1] == y;
    }
  }

  lemma InsertNoDup<T>(s: seq<T>, i: nat, x: T)
    requires i <= |s| && NoDup(s) && x !in s
    ensures NoDup(InsertAt(s, i, x))
  {
    var r := InsertAt(s, i, x);
    assert forall k | 0 <= k < |r| :: r[k] == if k < i then s[k] else if k == i then x else s[k - 1];
  }

  // ---------- The replica as a value ----------

  /** Each entry pairs an id with the object that stands for it. */
  type Entries<D> = seq<(Id, D)>

  function IdsOf<D>(entries: Entries<D>): seq<Id> {
    seq(|entries|, i requires 0 <= i < |entries| => entries[i].0)
  }

  function Step<D>(entries: Entries<D>, e: Event<D>): Entries<D> {
    match e
    case Created(id, position, d) => if position <= |entries| then InsertAt(entries, position, (id, d)) else entries
    case Removed(id) =>
      var i := IndexOf(IdsOf(entries), id);
      if i == -1 then entries else RemoveAt(entries, i)
    case Rows(_) => entries
  }

  /** The object listed for an id. */
  function Lookup<D>(entries: Entries<D>, id: Id): Option<D> {
    var i := IndexOf(IdsOf(entries), id);
    if i == -1 then None else Some(entries[i].1)
  }

  function Run<D>(trace: seq<Event<D>>): Entries<D> {
    if trace == [] then [] else Step(Run(trace[..|trace| - 1]), trace[|trace| - 1])
  }

  /** The compositor's own list after the same changes. */
  function ServerRun<D>(trace: seq<Event<D>>): seq<Id> {
    if trace == [] then [] else ServerStep(ServerRun(trace[..|trace| - 1]), trace[|trace| - 1])
  }

  /** Every change made sense to the compositor when it announced it. */
  ghost predicate Legal<D>(trace: seq<Event<D>>) {
    trace != [] ==>
      Legal(trace[..|trace| - 1]) && Sensible(ServerRun(trace[..|trace| - 1]), trace[|trace| - 1])
  }

  lemma IdsInserted<D>(entries: Entries<D>, i: nat, id: Id, d: D)
    requires i <= |entries|
    ensures IdsOf(InsertAt(entries, i, (id, d))) == InsertAt(IdsOf(entries), i, id)
  {
  }

  lemma IdsRemoved<D>(entries: Entries<D>, i: nat)
    requires i < |entries|
    ensures IdsOf(RemoveAt(entries, i)) == RemoveAt(IdsOf(entries), i)
  {
  }

  lemma IdsStep<D>(entries: Entries<D>, e: Event<D>)
    ensures IdsOf(Step(entries, e)) == ServerStep(IdsOf(entries), e)
  {
    match e
    case Created(id, position, d) => if position <= |entries| { IdsInserted(entries, position, id, d); }
    case Removed(id) => if id in IdsOf(entries) { IdsRemoved(entries, IndexOf(IdsOf(entries), id)); }
    case Rows(_) =>
  }

  lemma LookupAt<D>(entries: Entries<D>, i: nat)
    requires NoDup(IdsOf(entries)) && i < |entries|
    ensures Lookup(entries, entries[i].0) == Some(entries[i].1)
  {
    var ids := IdsOf(entries);
    assert ids[i] == entries[i].0 && ids[i] in ids;
    var j := IndexOf(ids, ids[i]);
    assert ids[j] == ids[i];
  }

  lemma LookupInserted<D>(entries: Entries<D>, i: nat, other: Id, d: D, id: Id)
    requires i <= |entries| && NoDup(IdsOf(entries)) && other !in IdsOf(entries)
    ensures var after := InsertAt(entries, i, (other, d));
      NoDup(IdsOf(after)) && Lookup(after, id) == if other == id then Some(d) else Lookup(entries, id)
  {
    var ids := IdsOf(entries);
    var after := InsertAt(entries, i, (other, d));
    IdsInserted(entries, i, other, d);
    InsertNoDup(ids, i, other);
    InsertMembers(ids, i, other);
    var k := IndexOf(ids, id);
    if other == id {
      LookupAt(after, i);
    } else if k != -1 {
      LookupAt(after, if k < i then k else k + 1);
    }
  }

  lemma LookupRemoved<D>(entries: Entries<D>, i: nat, id: Id)
    requires i < |entries| && NoDup(IdsOf(entries))
    ensures var after := RemoveAt(entries, i);
      NoDup(IdsOf(after)) && Lookup(after, id) == if entries[i].0 == id then None else Lookup(entries, id)
  {
    var ids := IdsOf(entries);
    var after := RemoveAt(entries, i);
    IdsRemoved(entries, i);
    RemoveAtNoDup(ids, i);
    var k := IndexOf(ids, id);
    if entries[i].0 != id && k != -1 {
      var k' := if k < i then k else k - 1;
      assert after[k'] == entries[k];
      LookupAt(after, k');
    }
  }

  /** One change affects the lookup of the id it names and of no other. */
  lemma LookupStep<D>(entries: Entries<D>, e: Event<D>, id: Id)
    requires NoDup(IdsOf(entries)) && Sensible(IdsOf(entries), e)
    ensures NoDup(IdsOf(Step(entries, e)))
    ensures Lookup(Step(entries, e), id) ==
      match e
      case Created(other, _, _) => if other == id then Some(e.desktop) else Lookup(entries, id)
      case Removed(other) => if other == id then None else Lookup(entries, id)
      case Rows(_) => Lookup(entries, id)
  {
    match e
    case Created(other, position, _) => LookupInserted(entries, position, other, e.desktop, id);
    case Removed(other) => LookupRemoved(entries, IndexOf(IdsOf(entries), other), id);
    case Rows(_) =>
  }

  ghost predicate CreatedAt<D>(trace: seq<Event<D>>, id: Id, d: D, i: nat)
    requires i < |trace|
  {
    trace[i].Created? && trace[i].id == id && trace[i].desktop == d
  }

  /** The i-th event created the desktop with object d, and the id was not removed since. */
  ghost predicate StandsSince<D>(trace: seq<Event<D>>, id: Id, d: D, i: nat)
    requires i < |trace|
  {
    CreatedAt(trace, id, d, i) && forall j | i < j < |trace| :: trace[j] != Removed(id)
  }

  /** On every sensible run the replica lists exactly the compositor's ids, in its order. */
  lemma {:induction false} ReplicaIds<D>(trace: seq<Event<D>>)
    requires Legal(trace)
    ensures IdsOf(Run(trace)) == ServerRun(trace)
  {
    if trace != [] {
      ReplicaIds(trace[..|trace| - 1]);
      IdsStep(Run(trace[..|trace| - 1]), trace[|trace| - 1]);
    }
  }

  lemma StandsStep<D>(trace: seq<Event<D>>, e: Event<D>, id: Id, d: D, i: nat)
    requires i < |trace|
    ensures StandsSince(trace + [e], id, d, i) <==> StandsSince(trace, id, d, i) && e != Removed(id)
  {
    var more := trace + [e];
    assert forall j | 0 <= j < |trace| :: more[j] == trace[j];
    assert more[|trace|] == e;
  }

  /** On every sensible run the ids are distinct, and an id stands for one and the same object from its
      creation to its removal. */
  lemma {:induction false} LookupIsStable<D>(trace: seq<Event<D>>, id: Id, d: D)
    requires Legal(trace)
    ensures NoDup(IdsOf(Run(trace)))
    ensures Lookup(Run(trace), id) == Some(d) <==> exists i | 0 <= i < |trace| :: StandsSince(trace, id, d, i)
  {
    if trace != [] {
      var n := |trace| - 1;
      var before, e := trace[..n], trace[n];
      assert trace == before + [e];
      LookupIsStable(before, id, d);
      ReplicaIds(before);
      LookupStep(Run(before), e, id);
      forall i | 0 <= i < n
        ensures StandsSince(trace, id, d, i) <==> StandsSince(before, id, d, i) && e != Removed(id)
      {
        StandsStep(before, e, id, d, i);
      }
      assert StandsSince(trace, id, d, n) <==> e.Created? && e.id == id && e.desktop == d;
      if e.Created? && e.id == id {
        NotStanding(before, id);
      }
    }
  }

  /** An unlisted id has no standing object. */
  lemma {:induction false} NotStanding<D>(trace: seq<Event<D>>, id: Id)
    requires Legal(trace) && id !in IdsOf(Run(trace))
    ensures forall i | 0 <= i < |trace| && trace[i].Created? && trace[i].id == id ::
      exists j | i < j < |trace| :: trace[j] == Removed(id)
  {
    if trace != [] {
      var n := |trace| - 1;
      var before, e := trace[..n], trace[n];
      assert trace == before + [e];
      ReplicaIds(before);
      IdsStep(Run(before), e);
      if e.Removed? && e.id == id {
        assert trace[n] == Removed(id);
      } else {
        StillUnlisted(Run(before), e, id);
        NotStanding(before, id);
      }
    }
  }

  lemma StillUnlisted<D>(entries: Entries<D>, e: Event<D>, id: Id)
    requires Sensible(IdsOf(entries), e) && id !in IdsOf(Step(entries, e)) && e != Removed(id)
    ensures id !in IdsOf(entries) && !(e.Created? && e.id == id)
  {
    var ids := IdsOf(entries);
    IdsStep(entries, e);
    match e
    case Created(other, position, _) => InsertMembers(ids, position, other);
    case Removed(other) => RemoveMembers(ids, IndexOf(ids, other));
    case Rows(_) =>
  }

  lemma {:induction false} IndexIs(ids: seq<Id>, id: Id, i: nat)
    requires i < |ids| && ids[i] == id && forall j | 0 <= j < i :: ids[j] != id
    ensures IndexOf(ids, id) == i
  {
    var k := IndexOf(ids, id);
    assert forall j | 0 <= j < k :: ids[j] in ids[..k];
  }

  /** The latest nonzero row count announced, or 1. */
  function RowsOf<D>(trace: seq<Event<D>>): (rows: nat)
    ensures rows >= 1
  {
    if trace == [] then 1
    else
      match trace[|trace| - 1]
      case Rows(rows) => if rows == 0 then RowsOf(trace[..|trace| - 1]) else rows
      case _ => RowsOf(trace[..|trace| - 1])
  }

  // ---------- The objects ----------

  class PlasmaVirtualDesktop {
    const id: Id

    constructor (id: Id)
      ensures this.id == id
    {
      this.id := id;
    }
  }

  class PlasmaVirtualDesktopManagement {
    var desktops: seq<PlasmaVirtualDesktop>
    var rows: nat
    ghost var history: seq<Event<PlasmaVirtualDesktop>>

    function Entries(): Entries<PlasmaVirtualDesktop>
      reads this
    {
      seq(|desktops|, i requires 0 <= i < |desktops| reads this => (desktops[i].id, desktops[i]))
    }

    ghost predicate Valid()
      reads this
    {
      Legal(history) && Entries() == Run(history) && rows == RowsOf(history)
    }

    /** What the compositor may announce next. */
    ghost predicate Expects(e: Event<PlasmaVirtualDesktop>)
      reads this
    {
      Sensible(ServerRun(history), e)
    }

    constructor ()
      ensures Valid() && history == [] && desktops == [] && rows == 1
    {
      desktops, rows, history := [], 1, [];
    }

    /** The position of the first desktop with that id, or the end of the list. */
    method FindDesktop(id: Id) returns (i: nat)
      ensures i == if id in IdsOf(Entries()) then IndexOf(IdsOf(Entries()), id) else |desktops|
      ensures i < |desktops| ==> desktops[i].id == id
    {
      ghost var ids := IdsOf(Entries());
      i := 0;
      while i < |desktops|
        invariant i <= |desktops|
        invariant forall j | 0 <= j < i :: ids[j] != id
      {
        if desktops[i].id == id {
          assert ids[i] == id;
          IndexIs(ids, id, i);
          return;
        }
        i := i + 1;
      }
    }

    /** The listed object for an id, or a new one that is not listed; nothing for the empty id. */
    method GetVirtualDesktop(id: Id) returns (desktop: PlasmaVirtualDesktop?)
      ensures desktop == null <==> id == []
      ensures desktop != null ==> desktop.id == id
      ensures desktop != null && id in IdsOf(Entries()) ==> Lookup(Entries(), id) == Some(desktop)
      ensures desktop != null && id !in IdsOf(Entries()) ==> fresh(desktop)
    {
      if id == [] {
        return null;
      }
      var i := FindDesktop(id);
      if i != |desktops| {
        return desktops[i];
      }
      desktop := new PlasmaVirtualDesktop(id);
    }

    ghost method Record(e: Event<PlasmaVirtualDesktop>)
      requires Legal(history) && Expects(e)
      modifies this`history
      ensures history == old(history) + [e] && Legal(history)
      ensures Run(history) == Step(Run(old(history)), e)
      ensures RowsOf(history) == if e.Rows? && e.rows != 0 then e.rows else RowsOf(old(history))
    {
      history := history + [e];
      assert history[..|history| - 1] == old(history);
    }

    method CreatedCallback(id: Id, position: nat) returns (ghost vd: PlasmaVirtualDesktop)
      requires Valid() && id != [] && id !in ServerRun(history) && position <= |ServerRun(history)|
      modifies this`desktops, this`history
      ensures Valid() && fresh(vd) && history == old(history) + [Created(id, position, vd)]
      ensures vd.id == id && |desktops| == old(|desktops|) + 1 && desktops[position] == vd
      ensures desktops[..position] == old(desktops)[..position]
      ensures desktops[position + 1..] == old(desktops)[position..]
    {
      ReplicaIds(history);
      var desktop := GetVirtualDesktop(id);
      vd := desktop;
      ghost var before := Entries();
      InsertExactly(desktops, position, desktop);
      desktops := InsertAt(desktops, position, desktop);
      assert Entries() == InsertAt(before, position, (id, desktop));
      Record(Created(id, position, vd));
    }

    method RemovedCallback(id: Id)
      requires Valid() && Expects(Removed(id))
      modifies this`desktops, this`history
      ensures Valid() && history == old(history) + [Removed(id)]
      ensures exists i: nat | i < old(|desktops|) ::
        && old(desktops)[i].id == id
        && desktops == old(desktops)[..i] + old(desktops)[i + 1..]
    {
      ReplicaIds(history);
      ghost var before := Entries();
      var i := FindDesktop(id);
      desktops := RemoveAt(desktops, i);
      assert Entries() == RemoveAt(before, i);
      Record(Removed(id));
    }

    /** A row count of zero is ignored, so that there is always at least one row. */
    method RowsCallback(announced: nat)
      requires Valid()
      modifies this`rows, this`history
      ensures Valid() && history == old(history) + [Rows(announced)]
      ensures rows == if announced == 0 then old(rows) else announced
      ensures rows >= 1
    {
      Record(Rows(announced));
      if announced == 0 {
        return;
      }
      rows := announced;
    }
  }
}
