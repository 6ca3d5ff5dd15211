/**
 * DataDevice: who owns each data offer. The events are those of wl_data_device in Appendix A of
 * The Wayland Protocol; what the client asserts about them is what Enabled demands.
 */
module OfferOwnership {
  import opened Lists

  datatype State<O> = State(
    last: Option<O>,        // announced, not yet named by an enter or a selection
    selection: Option<O>,
    drag: Option<O>,
    created: set<O>,
    deleted: seq<O>)        // in the order of deletion

  datatype Event<O> =
    | Offered(o: O)
    | Entered(o: O)
    | Left
    | Selected(offer: Option<O>)

  function Initial<O>(): State<O> {
    State(None, None, None, {}, [])
  }

  ghost predicate Enabled<O>(s: State<O>, e: Event<O>) {
    match e
    case Offered(o) => s.last == None && o !in s.created
    case Entered(o) => s.last == Some(o)
    case Left => true
    case Selected(offer) => offer.Some? ==> s.last == offer
  }

  function Delete<O>(s: State<O>, offer: Option<O>): State<O> {
    match offer
    case Some(o) => s.(deleted := s.deleted + [o])
    case None => s
  }

  function Step<O>(s: State<O>, e: Event<O>): State<O> {
    match e
    case Offered(o) => s.(last := Some(o), created := s.created + {o})
    case Entered(_) => s.(drag := s.last, last := None)
    case Left => Delete(s, s.drag).(drag := None)
    case Selected(None) => Delete(s, s.selection).(selection := None)
    case Selected(Some(_)) => Delete(s, s.selection).(selection := s.last, last := None)
  }

  // ---------- Ownership ----------

  predicate Holds<O(==)>(s: State<O>, o: O) {
    s.last == Some(o) || s.selection == Some(o) || s.drag == Some(o)
  }

  /** Created, but neither in a slot nor deleted. */
  predicate Lost<O(==)>(s: State<O>, o: O) {
    o in s.created && !Holds(s, o) && o !in s.deleted
  }

  ghost predicate Inv<O>(s: State<O>) {
    && (s.last.Some? ==> s.last.value in s.created && s.last.value !in s.deleted)
    && (s.selection.Some? ==> s.selection.value in s.created && s.selection.value !in s.deleted)
    && (s.drag.Some? ==> s.drag.value in s.created && s.drag.value !in s.deleted)
    && (s.last.Some? ==> s.last != s.selection && s.last != s.drag)
    && (s.selection.Some? ==> s.selection != s.drag)
    && (forall o | o in s.deleted :: o in s.created)
    && NoDup(s.deleted)
  }

  lemma StepKeepsInv<O>(s: State<O>, e: Event<O>)
    requires Inv(s) && Enabled(s, e)
    ensures Inv(Step(s, e))
  {
  }

  ghost predicate Legal<O>(trace: seq<Event<O>>)
    decreases |trace|, 0
  {
    trace != [] ==>
      Legal(trace[..|trace| - 1]) && Enabled(Run(trace[..|trace| - 1]), trace[|trace| - 1])
  }

  ghost function Run<O>(trace: seq<Event<O>>): State<O>
    requires Legal(trace)
    decreases |trace|, 1
  {
    if trace == [] then Initial() else Step(Run(trace[..|trace| - 1]), trace[|trace| - 1])
  }

  /** o went into the drag slot, and another enter took the slot before any leave. */
  ghost predicate Overwritten<O>(trace: seq<Event<O>>, o: O) {
    exists i, j | 0 <= i < j < |trace| :: OverwrittenAt(trace, o, i, j)
  }

  ghost predicate OverwrittenAt<O>(trace: seq<Event<O>>, o: O, i: nat, j: nat)
    requires i < j < |trace|
  {
    trace[i] == Entered(o) && trace[j].Entered? && forall k | i < k < j :: !trace[k].Left?
  }

  /** o went into the drag slot and nothing took the slot since. */
  ghost predicate Dragged<O>(trace: seq<Event<O>>, o: O) {
    exists i | 0 <= i < |trace| :: DraggedAt(trace, o, i)
  }

  ghost predicate DraggedAt<O>(trace: seq<Event<O>>, o: O, i: nat)
    requires i < |trace|
  {
    trace[i] == Entered(o) && forall k | i < k < |trace| :: !trace[k].Left? && !trace[k].Entered?
  }

  lemma DraggedStep<O>(trace: seq<Event<O>>, e: Event<O>, o: O)
    ensures Dragged(trace + [e], o) <==> e == Entered(o) || (Dragged(trace, o) && !e.Left? && !e.Entered?)
  {
    var more := trace + [e];
    var n := |trace|;
    forall i | 0 <= i < n ensures DraggedAt(more, o, i) <==> DraggedAt(trace, o, i) && !e.Left? && !e.Entered? {
      if DraggedAt(more, o, i) {
        assert forall k | i < k < n :: trace[k] == more[k];
        assert more[n] == e;
      }
    }
    assert DraggedAt(more, o, n) <==> e == Entered(o);
  }

  lemma OverwrittenStep<O>(trace: seq<Event<O>>, e: Event<O>, o: O)
    ensures Overwritten(trace + [e], o) <==> Overwritten(trace, o) || (e.Entered? && DraggedOrOverwritten(trace, o))
  {
    var more := trace + [e];
    var n := |trace|;
    forall i, j | 0 <= i < j < n ensures OverwrittenAt(more, o, i, j) <==> OverwrittenAt(trace, o, i, j) {
      assert forall k | 0 <= k < n :: trace[k] == more[k];
    }
    forall i | 0 <= i < n ensures OverwrittenAt(more, o, i, n) <==> e.Entered? && EnteredNotLeft(trace, o, i) {
      assert forall k | 0 <= k < n :: trace[k] == more[k];
      assert more[n] == e;
    }
  }

  ghost predicate EnteredNotLeft<O>(trace: seq<Event<O>>, o: O, i: nat)
    requires i < |trace|
  {
    trace[i] == Entered(o) && forall k | i < k < |trace| :: !trace[k].Left?
  }

  ghost predicate DraggedOrOverwritten<O>(trace: seq<Event<O>>, o: O) {
    exists i | 0 <= i < |trace| :: EnteredNotLeft(trace, o, i)
  }

  /** An entered offer that was not left is still dragged, unless another enter came. */
  lemma EnteredIsDraggedOrOverwritten<O>(trace: seq<Event<O>>, o: O)
    requires DraggedOrOverwritten(trace, o)
    ensures Dragged(trace, o) || Overwritten(trace, o)
  {
    var i :| 0 <= i < |trace| && EnteredNotLeft(trace, o, i);
    if j :| i < j < |trace| && trace[j].Entered? {
      assert OverwrittenAt(trace, o, i, j);
    } else {
      assert DraggedAt(trace, o, i);
    }
  }

  lemma DraggedWasEntered<O>(trace: seq<Event<O>>, o: O)
    requires Dragged(trace, o)
    ensures DraggedOrOverwritten(trace, o)
  {
    var i :| 0 <= i < |trace| && DraggedAt(trace, o, i);
    assert EnteredNotLeft(trace, o, i);
  }

  /** On every run an offer is in at most one slot, deleted at most once, and never both; it is lost
      exactly when a second enter took its drag slot before a leave. */
  lemma {:induction false} LostExactly<O>(trace: seq<Event<O>>, o: O)
    requires Legal(trace)
    ensures Inv(Run(trace))
    ensures Run(trace).drag == Some(o) <==> Dragged(trace, o)
    ensures Lost(Run(trace), o) <==> Overwritten(trace, o)
  {
    if trace != [] {
      var before, e := trace[..|trace| - 1], trace[|trace| - 1];
      assert trace == before + [e];
      LostExactly(before, o);
      StepKeepsInv(Run(before), e);
      DraggedStep(before, e, o);
      OverwrittenStep(before, e, o);
      if DraggedOrOverwritten(before, o) { EnteredIsDraggedOrOverwritten(before, o); }
      if Dragged(before, o) { DraggedWasEntered(before, o); }
    }
  }

  // ---------- The selection and the deleted offers ----------

  /** The i-th event selects o, and no later event is about the selection. */
  ghost predicate SelectedAt<O>(trace: seq<Event<O>>, o: O, i: nat)
    requires i < |trace|
  {
    trace[i] == Selected(Some(o)) && forall j | i < j < |trace| :: !trace[j].Selected?
  }

  ghost predicate SelectedLast<O>(trace: seq<Event<O>>, o: O) {
    exists i | 0 <= i < |trace| :: SelectedAt(trace, o, i)
  }

  lemma SelectedStep<O>(trace: seq<Event<O>>, e: Event<O>, o: O)
    ensures SelectedLast(trace + [e], o) <==> e == Selected(Some(o)) || (SelectedLast(trace, o) && !e.Selected?)
  {
    var more, n := trace + [e], |trace|;
    forall i | 0 <= i < n ensures SelectedAt(more, o, i) <==> SelectedAt(trace, o, i) && !e.Selected? {
      assert forall j | 0 <= j < n :: more[j] == trace[j];
      assert more[n] == e;
    }
    assert SelectedAt(more, o, n) <==> e == Selected(Some(o));
  }

  /** On every run the selection is the offer of the latest selection event, none if that was empty. */
  lemma {:induction false} SelectionExactly<O>(trace: seq<Event<O>>, o: O)
    requires Legal(trace)
    ensures Run(trace).selection == Some(o) <==> SelectedLast(trace, o)
  {
    if trace != [] {
      var before, e := trace[..|trace| - 1], trace[|trace| - 1];
      assert trace == before + [e];
      SelectionExactly(before, o);
      SelectedStep(before, e, o);
    }
  }

  /** The i-th event selects o, and the j-th is the next or a later one about the selection. */
  ghost predicate ReplacedAt<O>(trace: seq<Event<O>>, o: O, i: nat, j: nat)
    requires i < j < |trace|
  {
    trace[i] == Selected(Some(o)) && trace[j].Selected?
  }

  ghost predicate Replaced<O>(trace: seq<Event<O>>, o: O) {
    exists i, j | 0 <= i < j < |trace| :: ReplacedAt(trace, o, i, j)
  }

  lemma ReplacedStep<O>(trace: seq<Event<O>>, e: Event<O>, o: O)
    ensures Replaced(trace + [e], o) <==> Replaced(trace, o) || (e.Selected? && SelectedLast(trace, o))
  {
    var more, n := trace + [e], |trace|;
    assert forall i | 0 <= i < n :: more[i] == trace[i];
    assert more[n] == e;
    forall i, j | 0 <= i < j < n ensures ReplacedAt(more, o, i, j) <==> ReplacedAt(trace, o, i, j) {
    }
    if i :| 0 <= i < n && ReplacedAt(more, o, i, n) {
      if j :| i < j < n && trace[j].Selected? {
        assert ReplacedAt(trace, o, i, j);
      } else {
        assert SelectedAt(trace, o, i);
      }
    }
    if e.Selected? && SelectedLast(trace, o) {
      var i :| 0 <= i < n && SelectedAt(trace, o, i);
      assert ReplacedAt(more, o, i, n);
    }
  }

  /** The i-th event drags o in, and the j-th is a leave, with no other enter in between. */
  ghost predicate DroppedAt<O>(trace: seq<Event<O>>, o: O, i: nat, j: nat)
    requires i < j < |trace|
  {
    trace[i] == Entered(o) && trace[j].Left? && forall k | i < k < j :: !trace[k].Entered?
  }

  ghost predicate Dropped<O>(trace: seq<Event<O>>, o: O) {
    exists i, j | 0 <= i < j < |trace| :: DroppedAt(trace, o, i, j)
  }

  lemma DroppedStep<O>(trace: seq<Event<O>>, e: Event<O>, o: O)
    ensures Dropped(trace + [e], o) <==> Dropped(trace, o) || (e.Left? && Dragged(trace, o))
  {
    var more, n := trace + [e], |trace|;
    assert forall i | 0 <= i < n :: more[i] == trace[i];
    assert more[n] == e;
    forall i, j | 0 <= i < j < n ensures DroppedAt(more, o, i, j) <==> DroppedAt(trace, o, i, j) {
    }
    if i :| 0 <= i < n && DroppedAt(more, o, i, n) {
      if j :| i < j < n && trace[j].Left? {
        assert DroppedAt(trace, o, i, j);
      } else {
        assert DraggedAt(trace, o, i);
      }
    }
    if e.Left? && Dragged(trace, o) {
      var i :| 0 <= i < n && DraggedAt(trace, o, i);
      assert DroppedAt(more, o, i, n);
    }
  }

  /** On every run the deleted offers are those whose selection was replaced or whose drag was left. */
  lemma {:induction false} DeletedExactly<O>(trace: seq<Event<O>>, o: O)
    requires Legal(trace)
    ensures o in Run(trace).deleted <==> Replaced(trace, o) || Dropped(trace, o)
  {
    if trace != [] {
      var before, e := trace[..|trace| - 1], trace[|trace| - 1];
      assert trace == before + [e];
      DeletedExactly(before, o);
      SelectionExactly(before, o);
      LostExactly(before, o);
      ReplacedStep(before, e, o);
      DroppedStep(before, e, o);
    }
  }

  /** The rule that a leave precedes the next enter. */
  ghost predicate LeavesFirst<O>(trace: seq<Event<O>>) {
    forall i, j | 0 <= i < j < |trace| && trace[i].Entered? && trace[j].Entered? ::
      exists k | i < k < j :: trace[k].Left?
  }

  /** Under that rule every offer ever created is in exactly one slot or deleted, at every moment. */
  lemma {:induction false} NothingIsLost<O>(trace: seq<Event<O>>, o: O)
    requires Legal(trace) && LeavesFirst(trace) && o in Run(trace).created
    ensures var s := Run(trace);
      && Holds(s, o) == (o !in s.deleted)
      && NoDup(s.deleted)
      && (s.last == Some(o) ==> s.selection != Some(o) && s.drag != Some(o))
      && (s.selection == Some(o) ==> s.drag != Some(o))
  {
    LostExactly(trace, o);
    assert !Overwritten(trace, o);
  }

  // ---------- What the compositor promises ----------

  /** The event names an offer: an enter, or a selection that is not empty. */
  predicate Naming<O>(e: Event<O>) {
    e.Entered? || (e.Selected? && e.offer.Some?)
  }

  function Named<O>(e: Event<O>): O
    requires Naming(e)
  {
    match e
    case Entered(o) => o
    case Selected(Some(o)) => o
  }

  predicate Names<O(==)>(e: Event<O>, o: O) {
    Naming(e) && Named(e) == o
  }

  /** The i-th event announces o, and no later event announces or names an offer. */
  ghost predicate OpenSince<O>(trace: seq<Event<O>>, o: O, i: nat)
    requires i < |trace|
  {
    trace[i] == Offered(o) && forall k | i < k < |trace| :: !trace[k].Offered? && !Naming(trace[k])
  }

  ghost predicate Open<O>(trace: seq<Event<O>>, o: O) {
    exists i | 0 <= i < |trace| :: OpenSince(trace, o, i)
  }

  /** No offer is announced twice. */
  ghost predicate Fresh<O>(trace: seq<Event<O>>) {
    forall i, j | 0 <= i < j < |trace| && trace[i].Offered? && trace[j].Offered? :: trace[i].o != trace[j].o
  }

  /** Between two announcements some event names the first of the two offers. */
  ghost predicate NamedInTime<O>(trace: seq<Event<O>>) {
    forall i, j | 0 <= i < j < |trace| && trace[i].Offered? && trace[j].Offered? :: NamedBetween(trace, i, j)
  }

  ghost predicate NamedBetween<O>(trace: seq<Event<O>>, i: nat, j: nat)
    requires i < j <= |trace| && trace[i].Offered?
  {
    exists k | i < k < j :: Names(trace[k], trace[i].o)
  }

  /** Every naming event follows the announcement of its offer, with no announcement and no other naming
      event in between. */
  ghost predicate NamesTheLatest<O>(trace: seq<Event<O>>) {
    forall k | 0 <= k < |trace| && Naming(trace[k]) :: Open(trace[..k], Named(trace[k]))
  }

  /** Each offer is new, and is named by one following enter or selection before the next offer. */
  ghost predicate Orderly<O>(trace: seq<Event<O>>) {
    Fresh(trace) && NamedInTime(trace) && NamesTheLatest(trace)
  }

  lemma OpenStep<O>(trace: seq<Event<O>>, e: Event<O>, o: O)
    ensures Open(trace + [e], o) <==> e == Offered(o) || (Open(trace, o) && !e.Offered? && !Naming(e))
  {
    var more := trace + [e];
    var n := |trace|;
    forall i | 0 <= i < n
      ensures OpenSince(more, o, i) <==> OpenSince(trace, o, i) && !e.Offered? && !Naming(e)
    {
      assert forall k | 0 <= k < n :: more[k] == trace[k];
      assert more[n] == e;
    }
    assert OpenSince(more, o, n) <==> e == Offered(o);
  }

  /** In an orderly history, every announced offer was named or is the one still open. */
  lemma NamedOrOpen<O>(trace: seq<Event<O>>, i: nat)
    requires Orderly(trace) && i < |trace| && trace[i].Offered?
    ensures NamedBetween(trace, i, |trace|) || OpenSince(trace, trace[i].o, i)
  {
    if !OpenSince(trace, trace[i].o, i) {
      var j :| i < j < |trace| && (trace[j].Offered? || Naming(trace[j]));
      if trace[j].Offered? {
        assert NamedBetween(trace, i, j);
      } else {
        var a :| 0 <= a < j && OpenSince(trace[..j], Named(trace[j]), a);
        assert trace[..j][i] == trace[i] && trace[..j][a] == trace[a];
        if a == i {
          assert Names(trace[j], trace[i].o);
        } else {
          assert i < a && NamedBetween(trace, i, a);
        }
      }
    }
  }

  lemma FreshStep<O>(trace: seq<Event<O>>, e: Event<O>)
    ensures Fresh(trace + [e]) <==>
      Fresh(trace) && (e.Offered? ==> forall i | 0 <= i < |trace| && trace[i].Offered? :: trace[i].o != e.o)
  {
    var more := trace + [e];
    assert forall i | 0 <= i < |trace| :: more[i] == trace[i];
    assert more[|trace|] == e;
  }

  lemma NamedInTimeStep<O>(trace: seq<Event<O>>, e: Event<O>)
    ensures NamedInTime(trace + [e]) <==>
      && NamedInTime(trace)
      && (e.Offered? ==> forall i | 0 <= i < |trace| && trace[i].Offered? :: NamedBetween(trace, i, |trace|))
  {
    var more := trace + [e];
    assert forall i | 0 <= i < |trace| :: more[i] == trace[i];
    assert more[|trace|] == e;
    forall i, j | 0 <= i < j <= |trace| && trace[i].Offered?
      ensures NamedBetween(more, i, j) <==> NamedBetween(trace, i, j)
    {
      assert forall k | i < k < j :: more[k] == trace[k];
    }
  }

  lemma NamesTheLatestStep<O>(trace: seq<Event<O>>, e: Event<O>)
    ensures NamesTheLatest(trace + [e]) <==> NamesTheLatest(trace) && (Naming(e) ==> Open(trace, Named(e)))
  {
    var more := trace + [e];
    assert forall k | 0 <= k < |trace| :: more[k] == trace[k];
    assert more[|trace|] == e && more[..|trace|] == trace;
    assert forall k | 0 <= k < |trace| :: more[..k] == trace[..k];
  }

  /** The slot of the last offer holds o exactly when o is open. */
  lemma {:induction false} LastIsOpen<O>(trace: seq<Event<O>>, o: O)
    requires Legal(trace)
    ensures Run(trace).last == Some(o) <==> Open(trace, o)
  {
    if trace != [] {
      var before, e := trace[..|trace| - 1], trace[|trace| - 1];
      assert trace == before + [e];
      LastIsOpen(before, o);
      OpenStep(before, e, o);
    }
  }

  lemma {:induction false} CreatedAreOffered<O>(trace: seq<Event<O>>, o: O)
    requires Legal(trace)
    ensures o in Run(trace).created <==> exists i | 0 <= i < |trace| :: trace[i] == Offered(o)
  {
    if trace != [] {
      var before, e := trace[..|trace| - 1], trace[|trace| - 1];
      CreatedAreOffered(before, o);
      assert forall i | 0 <= i < |before| :: trace[i] == before[i];
    }
  }

  /** An offer may be announced exactly when it is new and every earlier one was named since. */
  lemma {:induction false} OfferAllowed<O>(trace: seq<Event<O>>, o: O)
    requires Legal(trace) && Orderly(trace)
    ensures Enabled(Run(trace), Offered(o)) <==>
      forall i | 0 <= i < |trace| && trace[i].Offered? :: trace[i].o != o && NamedBetween(trace, i, |trace|)
  {
    var s := Run(trace);
    CreatedAreOffered(trace, o);
    if s.last.Some? {
      LastIsOpen(trace, s.last.value);
      var i :| 0 <= i < |trace| && OpenSince(trace, s.last.value, i);
      assert !NamedBetween(trace, i, |trace|);
    } else {
      forall i | 0 <= i < |trace| && trace[i].Offered? ensures NamedBetween(trace, i, |trace|) {
        NamedOrOpen(trace, i);
        LastIsOpen(trace, trace[i].o);
      }
    }
  }

  /** The client's assertions hold throughout a run exactly when the compositor keeps its promise. */
  lemma {:induction false} AssertionsHoldExactly<O>(trace: seq<Event<O>>)
    ensures Legal(trace) <==> Orderly(trace)
  {
    if trace != [] {
      var before, e := trace[..|trace| - 1], trace[|trace| - 1];
      assert trace == before + [e];
      AssertionsHoldExactly(before);
      FreshStep(before, e);
      NamedInTimeStep(before, e);
      NamesTheLatestStep(before, e);
      if Legal(before) {
        if e.Offered? { OfferAllowed(before, e.o); }
        if Naming(e) { LastIsOpen(before, Named(e)); }
      }
    }
  }

  lemma {:induction false} ExtendRun<O>(trace: seq<Event<O>>, e: Event<O>)
    requires Legal(trace) && Enabled(Run(trace), e)
    ensures Legal(trace + [e]) && Run(trace + [e]) == Step(Run(trace), e)
  {
    assert (trace + [e])[..|trace|] == trace;
  }

  lemma OneEntered<O>(a: O)
    ensures var trace := [Offered(a), Entered(a)];
      Legal(trace) && Run(trace) == State(None, None, Some(a), {a}, [])
  {
    var t0: seq<Event<O>> := [];
    ExtendRun(t0, Offered(a));
    assert t0 + [Offered(a)] == [Offered(a)];
    ExtendRun([Offered(a)], Entered(a));
    assert [Offered(a)] + [Entered(a)] == [Offered(a), Entered(a)];
    assert {} + {a} == {a};
  }

  /** A second enter without a leave: every assertion holds on this run, and the first offer is lost. */
  lemma OfferCanBeLost<O>(a: O, b: O)
    requires a != b
    ensures var trace := [Offered(a), Entered(a), Offered(b), Entered(b)];
      Legal(trace) && Lost(Run(trace), a)
  {
    OneEntered(a);
    var t2, t3 := [Offered(a), Entered(a)], [Offered(a), Entered(a), Offered(b)];
    ExtendRun(t2, Offered(b));
    assert t2 + [Offered(b)] == t3;
    ExtendRun(t3, Entered(b));
    assert t3 + [Entered(b)] == [Offered(a), Entered(a), Offered(b), Entered(b)];
  }

  // ---------- The object ----------

  class DataOffer {
    constructor () {}
  }

  class DataDevice {
    var lastOffer: DataOffer?
    var selectionOffer: DataOffer?
    var dragOffer: DataOffer?
    var children: seq<DataOffer>          // every offer is a QObject child until it is deleted
    ghost var created: set<DataOffer>
    ghost var deleted: seq<DataOffer>

    ghost function View(): State<DataOffer>
      reads this
    {
      State(Opt(lastOffer), Opt(selectionOffer), Opt(dragOffer), created, deleted)
    }

    /** The children are the offers that were created and not deleted. */
    ghost predicate Valid()
      reads this
    {
      && Inv(View())
      && NoDup(children)
      && (forall o | o in created :: o in children <==> o !in deleted)
      && (forall o | o in children :: o in created)
    }

    constructor ()
      ensures Valid() && View() == Initial()
    {
      lastOffer, selectionOffer, dragOffer, children := null, null, null, [];
      created, deleted := {}, [];
    }

    method DeleteOffer(o: DataOffer)
      requires o in children && NoDup(children)
      modifies this`children, this`deleted
      ensures deleted == old(deleted) + [o]
      ensures NoDup(children)
      ensures forall u | u in old(children) :: u in children <==> u != o
      ensures forall u | u in children :: u in old(children)
    {
      WithoutNoDup(children, o);
      WithoutMembers(children, o);
      children := Without(children, o);
      deleted := deleted + [o];
    }

    method OfferCallback() returns (offer: DataOffer)
      requires Valid() && lastOffer == null
      modifies this`lastOffer, this`children, this`created
      ensures Valid() && fresh(offer)
      ensures View() == Step(old(View()), Offered(offer))
      ensures lastOffer == offer
    {
      offer := new DataOffer();
      lastOffer := offer;
      children := children + [offer];
      created := created + {offer};
    }

    method DragEnter(offer: DataOffer)
      requires Valid() && lastOffer == offer
      modifies this`lastOffer, this`dragOffer
      ensures Valid() && View() == Step(old(View()), Entered(offer))
      ensures dragOffer == offer && lastOffer == null
    {
      dragOffer := lastOffer;
      lastOffer := null;
    }

    method DragLeft()
      requires Valid()
      modifies this`dragOffer, this`children, this`deleted
      ensures Valid() && View() == Step(old(View()), Left)
      ensures dragOffer == null && (old(dragOffer) != null ==> old(dragOffer) in deleted)
    {
      if dragOffer != null {
        DeleteOffer(dragOffer);
      }
      dragOffer := null;
    }

    method Selection(offer: DataOffer?)
      requires Valid() && (offer != null ==> lastOffer == offer)
      modifies this`lastOffer, this`selectionOffer, this`children, this`deleted
      ensures Valid() && View() == Step(old(View()), Selected(Opt(offer)))
      ensures selectionOffer == offer && lastOffer == (if offer == null then old(lastOffer) else null)
      ensures old(selectionOffer) != null ==> old(selectionOffer) in deleted
    {
      if selectionOffer != null {
        DeleteOffer(selectionOffer);
      }
      if offer == null {
        selectionOffer := null;
        return;
      }
      selectionOffer := lastOffer;
      lastOffer := null;
    }

    /** The destructor deletes the drag offer, the scoped selection offer, and then whatever QObject
        children are left, so that every offer ever created is deleted exactly once, lost or not. */
    method Destruct()
      requires Valid()
      modifies this
      ensures created == old(created) && NoDup(deleted) && old(deleted) <= deleted
      ensures forall o | o in created :: o in deleted
      ensures forall o | o in deleted :: o in created
    {
      if dragOffer != null {
        DeleteOffer(dragOffer);
      }
      if selectionOffer != null {
        DeleteOffer(selectionOffer);
      }
      while children != []
        invariant NoDup(children) && NoDup(deleted) && created == old(created) && old(deleted) <= deleted
        invariant forall o | o in created :: o in children <==> o !in deleted
        invariant forall o | o in children :: o in created
        invariant forall o | o in deleted :: o in created
        decreases |children|
      {
        var o := children[0];
        assert o in children && o !in deleted;
        AppendNoDup(deleted, o);
        children := children[1..];
        deleted := deleted + [o];
      }
    }
  }

  function Opt(o: DataOffer?): Option<DataOffer> {
    if o == null then None else Some(o)
  }
}
