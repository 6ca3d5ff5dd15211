/** Every event keeps the invariant of WindowState, and each signal fan-out amounts to one atomic change. */
module WindowInvariant {
  import opened Lists
  import opened WindowState

  // ---------- setParentWindow ----------

  /** The windows whose unmapped signal still reaches c: at most its recorded sender. */
  ghost predicate OnlySender<W, M>(win: Windows<W, M>, c: W)
    requires c in win
  {
    forall u | u in win :: ChildSlot(c) in win[u].slots ==> win[c].connection == Some(u)
  }

  lemma DisconnectEffect<W, M>(win: Windows<W, M>, c: W, u: W)
    requires c in win && u in win && OnlySender(win, c)
    ensures multiset(Disconnect(win, c)[u].slots) == multiset(win[u].slots)[ChildSlot(c) := 0]
  {
    if win[c].connection == Some(u) {
      WithoutCount(win[u].slots, ChildSlot(c));
    } else {
      assert ChildSlot(c) !in multiset(win[u].slots);
    }
  }

  lemma SetParentSlots<W, M>(win: Windows<W, M>, c: W, p: Option<W>, u: W)
    requires c in win && u in win && OnlySender(win, c)
    ensures multiset(SetParent(win, c, p)[u].slots)
         == multiset(win[u].slots)[ChildSlot(c) := if Usable(win, p) == Some(u) then 1 else 0]
  {
    DisconnectEffect(win, c, u);
  }

  lemma SetParentFields<W, M>(win: Windows<W, M>, c: W, p: Option<W>, u: W)
    requires c in win && u in win
    ensures var t := SetParent(win, c, p);
      && t.Keys == win.Keys
      && t[u].active == win[u].active && t[u].unmapped == win[u].unmapped
      && (u != c ==> t[u] == win[u].(slots := t[u].slots))
      && (u == c ==>
        && t[c].parent == t[c].connection == Usable(win, p)
        && t[c].parentSignals == win[c].parentSignals + (if Usable(win, p) != win[c].parent then 1 else 0))
  {
  }

  lemma OneSender<W, M>(win: Windows<W, M>, c: W)
    requires FamilyOk(win) && c in win
    ensures OnlySender(win, c)
  {
    forall u | u in win && ChildSlot(c) in win[u].slots ensures win[c].connection == Some(u) {
      assert SlotsOk(win, u);
    }
  }

  lemma SetParentFamily<W, M>(win: Windows<W, M>, c: W, p: Option<W>)
    requires FamilyOk(win) && c in win
    ensures FamilyOk(SetParent(win, c, p))
  {
    OneSender(win, c);
    var t := SetParent(win, c, p);
    forall u | u in t ensures ChildOk(t, u) && SlotsOk(t, u) {
      assert ChildOk(win, u) && SlotsOk(win, u);
      SetParentFields(win, c, p, u);
      SetParentSlots(win, c, p, u);
      if t[u].parent.Some? {
        SetParentSlots(win, c, p, t[u].parent.value);
        SetParentFields(win, c, p, t[u].parent.value);
      }
      forall x | x in t[u].slots && x.ChildSlot?
        ensures x.child in t && t[x.child].connection == Some(u)
      {
        assert x in multiset(t[u].slots);
        if x != ChildSlot(c) {
          assert x in multiset(win[u].slots);
          SetParentFields(win, c, p, x.child);
        }
      }
    }
  }

  // ---------- The unmapped fan-out ----------

  /** What is still true of the windows while w, already marked unmapped, tells its subscribers. */
  ghost predicate Unmapping<W, M>(win: Windows<W, M>) {
    forall u | u in win :: SlotsOk(win, u) && win[u].connection == win[u].parent
  }

  /** The models after the slots in `seen` ran for the window w. */
  ghost predicate RowsGone<W, M>(before: map<M, Model<W>>, after: map<M, Model<W>>, w: W, seen: seq<Slot<W, M>>) {
    && after.Keys == before.Keys
    && forall m | m in before :: after[m] == if ModelSlot(m) in seen then RemoveRow(before[m], w) else before[m]
  }

  /** The windows after the slots in `seen` ran for the unmapping window w. */
  ghost predicate Orphaned<W, M>(before: Windows<W, M>, after: Windows<W, M>, w: W, seen: seq<Slot<W, M>>)
    requires w in before
  {
    && after.Keys == before.Keys
    && (forall u | u in before ::
      && after[u] == Orphan(before[u], ChildSlot(u) in seen).(slots := after[u].slots)
      && (u != w ==> after[u].slots == before[u].slots))
    && SlotsLeft(before[w].slots, after[w].slots, seen)
  }

  /** Of the slots before, exactly the child slots that ran are gone. */
  ghost predicate SlotsLeft<W, M>(before: seq<Slot<W, M>>, after: seq<Slot<W, M>>, seen: seq<Slot<W, M>>) {
    && (forall x | x in before ::
      multiset(after)[x] == if x.ChildSlot? && x in seen then 0 else multiset(before)[x])
    && (forall x | x in after :: x in before)
  }

  /** s has become t after the slots in `seen` ran for the unmapping window w. */
  ghost predicate UnmapEffect<W, M>(s: State<W, M>, t: State<W, M>, w: W, seen: seq<Slot<W, M>>)
    requires w in s.win
  {
    var dropped := ManagerSlot in seen && s.active == Some(w);
    && t == s.(win := t.win, models := t.models, active := t.active, activeSignals := t.activeSignals)
    && t.active == (if dropped then None else s.active)
    && t.activeSignals == s.activeSignals + (if dropped then 1 else 0)
    && RowsGone(s.models, t.models, w, seen)
    && Orphaned(s.win, t.win, w, seen)
  }

  function Orphan<W, M>(v: Window<W, M>, told: bool): Window<W, M> {
    if told then v.(parent := None, connection := None, parentSignals := v.parentSignals + 1) else v
  }

  lemma RemoveRowTwice<W>(d: Model<W>, w: W)
    requires NoDup(d.rows)
    ensures RemoveRow(RemoveRow(d, w), w) == RemoveRow(d, w)
  {
    var row := IndexOf(d.rows, w);
    if row != -1 {
      RemoveAtNoDup(d.rows, row);
    }
  }

  lemma OrphanStep<W, M>(win: Windows<W, M>, w: W, c: W, u: W)
    requires w in win && c in win && u in win
    requires win[c].parent == win[c].connection == Some(w)
    ensures var t := SetParent(win, c, None);
      && t[u] == Orphan(win[u], u == c).(slots := t[u].slots)
      && t[u].slots == if u == w then Without(win[w].slots, ChildSlot(c)) else win[u].slots
  {
  }

  lemma RowsGoneStep<W, M>(
      before: map<M, Model<W>>, after: map<M, Model<W>>, w: W, seen: seq<Slot<W, M>>, x: Slot<W, M>)
    requires RowsGone(before, after, w, seen)
    requires forall m | m in before :: NoDup(before[m].rows)
    requires x.ModelSlot? ==> x.model in before
    ensures var next := if x.ModelSlot? then after[x.model := RemoveRow(after[x.model], w)] else after;
      RowsGone(before, next, w, seen + [x])
  {
    if x.ModelSlot? {
      RemoveRowTwice(before[x.model], w);
    }
  }

  /** A child slot is still there exactly until it has run. */
  lemma SlotPending<W, M>(before: seq<Slot<W, M>>, after: seq<Slot<W, M>>, seen: seq<Slot<W, M>>, x: Slot<W, M>)
    requires SlotsLeft(before, after, seen) && x in before && x.ChildSlot?
    ensures x in after <==> x !in seen
  {
    assert x in multiset(after) <==> x !in seen;
  }

  lemma SlotsLeftStep<W, M>(
      before: seq<Slot<W, M>>, after: seq<Slot<W, M>>, seen: seq<Slot<W, M>>, x: Slot<W, M>, rest: seq<Slot<W, M>>)
    requires SlotsLeft(before, after, seen) && x.ChildSlot?
    requires multiset(rest) == multiset(after)[x := 0]
    ensures SlotsLeft(before, rest, seen + [x])
  {
    forall y | y in rest ensures y in after {
      assert y in multiset(rest);
    }
  }

  lemma OrphanedFields<W, M>(before: Windows<W, M>, after: Windows<W, M>, w: W, seen: seq<Slot<W, M>>, c: W)
    requires w in before && c in before && Orphaned(before, after, w, seen) && ChildSlot(c) !in seen
    requires after[c].parent == after[c].connection == Some(w)
    ensures var t := SetParent(after, c, None);
      && t.Keys == before.Keys
      && forall u | u in before ::
        && t[u] == Orphan(before[u], ChildSlot(u) in seen + [ChildSlot(c)]).(slots := t[u].slots)
        && (u != w ==> t[u].slots == before[u].slots)
  {
    var t := SetParent(after, c, None);
    forall u | u in before
      ensures t[u] == Orphan(before[u], ChildSlot(u) in seen + [ChildSlot(c)]).(slots := t[u].slots)
      ensures u != w ==> t[u].slots == before[u].slots
    {
      OrphanStep(after, w, c, u);
    }
  }

  lemma OrphanedStep<W, M>(before: Windows<W, M>, after: Windows<W, M>, w: W, seen: seq<Slot<W, M>>, c: W)
    requires w in before && Unmapping(before) && Orphaned(before, after, w, seen)
    requires ChildSlot(c) in before[w].slots && ChildSlot(c) !in seen && c in before
    ensures Orphaned(before, SetParent(after, c, None), w, seen + [ChildSlot(c)])
  {
    assert SlotsOk(before, w);
    assert after[c].parent == after[c].connection == Some(w);
    OrphanedFields(before, after, w, seen, c);
    OrphanStep(after, w, c, w);
    var rest := Without(after[w].slots, ChildSlot(c));
    WithoutCount(after[w].slots, ChildSlot(c));
    SlotsLeftStep(before[w].slots, after[w].slots, seen, ChildSlot(c), rest);
  }

  lemma OrphanedOther<W, M>(before: Windows<W, M>, after: Windows<W, M>, w: W, seen: seq<Slot<W, M>>, x: Slot<W, M>)
    requires w in before && Orphaned(before, after, w, seen) && (x.ChildSlot? ==> x in seen)
    ensures Orphaned(before, after, w, seen + [x])
  {
  }

  lemma OrphanedSlot<W, M>(before: Windows<W, M>, after: Windows<W, M>, w: W, seen: seq<Slot<W, M>>, x: Slot<W, M>)
    requires w in before && Unmapping(before) && Orphaned(before, after, w, seen) && x in before[w].slots
    ensures var next := if x.ChildSlot? && x.child in after && x in after[w].slots then SetParent(after, x.child, None)
                        else after;
            Orphaned(before, next, w, seen + [x])
  {
    if x.ChildSlot? {
      assert SlotsOk(before, w);
      SlotPending(before[w].slots, after[w].slots, seen, x);
    }
    if x.ChildSlot? && x !in seen {
      OrphanedStep(before, after, w, seen, x.child);
    } else {
      OrphanedOther(before, after, w, seen, x);
    }
  }

  lemma UnmapStep<W, M>(s: State<W, M>, t: State<W, M>, w: W, seen: seq<Slot<W, M>>, x: Slot<W, M>)
    requires w in s.win && UnmapEffect(s, t, w, seen)
    requires RowsGone(s.models, UnmappedSlot(t, w, x).models, w, seen + [x])
    requires Orphaned(s.win, UnmappedSlot(t, w, x).win, w, seen + [x])
    ensures UnmapEffect(s, UnmappedSlot(t, w, x), w, seen + [x])
  {
    if x != ManagerSlot {
      assert ManagerSlot in seen + [x] <==> ManagerSlot in seen;
    }
  }

  lemma SlotParts<W, M>(t: State<W, M>, w: W, x: Slot<W, M>)
    requires w in t.win && (x.ModelSlot? ==> x.model in t.models)
    ensures var t' := UnmappedSlot(t, w, x);
      && t'.models == (if x.ModelSlot? then t.models[x.model := RemoveRow(t.models[x.model], w)] else t.models)
      && t'.win ==
        if x.ChildSlot? && x.child in t.win && x in t.win[w].slots then SetParent(t.win, x.child, None) else t.win
  {
  }

  lemma {:induction false} UnmapPrefix<W, M>(s: State<W, M>, w: W, seen: seq<Slot<W, M>>)
    requires w in s.win && Unmapping(s.win)
    requires forall m | m in s.models :: NoDup(s.models[m].rows)
    requires forall x | x in seen :: x in s.win[w].slots && (x.ModelSlot? ==> x.model in s.models)
    ensures UnmapEffect(s, EmitUnmapped(s, w, seen), w, seen)
  {
    if seen != [] {
      var before, x := seen[..|seen| - 1], seen[|seen| - 1];
      assert seen == before + [x];
      UnmapPrefix(s, w, before);
      var t := EmitUnmapped(s, w, before);
      SlotParts(t, w, x);
      RowsGoneStep(s.models, t.models, w, before, x);
      OrphanedSlot(s.win, t.win, w, before, x);
      UnmapStep(s, t, w, before, x);
    }
  }

  lemma MarkedUnmapping<W, M>(s: State<W, M>, w: W)
    requires FamilyOk(s.win) && w in s.win
    ensures Unmapping(Marked(s, w).win)
  {
    var win := Marked(s, w).win;
    forall u | u in s.win ensures SlotsOk(win, u) && win[u].connection == win[u].parent {
      assert ChildOk(s.win, u) && SlotsOk(s.win, u);
    }
  }

  lemma UnmapWhole<W, M>(s: State<W, M>, w: W)
    requires FamilyOk(s.win) && ModelsOk(s) && w in s.win
    ensures UnmapEffect(Marked(s, w), OnUnmapped(s, w), w, s.win[w].slots)
  {
    MarkedUnmapping(s, w);
    UnmapPrefix(Marked(s, w), w, s.win[w].slots);
  }

  /** A child slot of w exists exactly for the children of w. */
  lemma ChildSlots<W, M>(win: Windows<W, M>, w: W, c: W)
    requires FamilyOk(win) && w in win && c in win
    ensures ChildSlot(c) in win[w].slots <==> win[c].parent == Some(w)
    ensures ManagerSlot in win[w].slots
  {
    assert ChildOk(win, c) && SlotsOk(win, w);
    assert ChildSlot(c) in multiset(win[w].slots) <==> ChildSlot(c) in win[w].slots;
    assert ManagerSlot in multiset(win[w].slots);
  }

  /** What unmapping w does to the window c. */
  ghost predicate ChildReleased<W, M>(v: Window<W, M>, v': Window<W, M>, w: W, isW: bool) {
    var child := v.parent == Some(w);
    && v'.active == v.active
    && v'.unmapped == (isW || v.unmapped)
    && v'.parent == (if child then None else v.parent)
    && v'.parentSignals == v.parentSignals + (if child then 1 else 0)
  }

  lemma NoChildSlotLeft<W, M>(s: State<W, M>, w: W, t: Windows<W, M>, x: Slot<W, M>)
    requires w in s.win && Orphaned(Marked(s, w).win, t, w, s.win[w].slots) && x in t[w].slots
    ensures !x.ChildSlot?
  {
    assert x in multiset(t[w].slots);
  }

  lemma OrphanedChild<W, M>(s: State<W, M>, w: W, t: Windows<W, M>, c: W)
    requires FamilyOk(s.win) && w in s.win && c in s.win
    requires Orphaned(Marked(s, w).win, t, w, s.win[w].slots)
    ensures ChildReleased(s.win[c], t[c], w, c == w)
  {
    ChildSlots(s.win, w, c);
  }

  /** Unmapping w takes w away from every child, with one notification each, and leaves every other
      parent alone; it also leaves the manager and every model without w. */
  lemma UnmapClearsChildren<W, M>(s: State<W, M>, w: W)
    requires FamilyOk(s.win) && ModelsOk(s) && w in s.win
    ensures var t := OnUnmapped(s, w);
      && t == s.(win := t.win, models := t.models, active := t.active, activeSignals := t.activeSignals)
      && t.win.Keys == s.win.Keys && t.models.Keys == s.models.Keys
      && (forall c | c in s.win :: ChildReleased(s.win[c], t.win[c], w, c == w))
      && (forall x | x in t.win[w].slots :: !x.ChildSlot?)
      && t.active == (if s.active == Some(w) then None else s.active)
      && t.activeSignals == s.activeSignals + (if s.active == Some(w) then 1 else 0)
      && (forall m | m in s.models :: t.models[m].rows == Without(s.models[m].rows, w))
  {
    var t := OnUnmapped(s, w);
    UnmapWhole(s, w);
    forall c | c in s.win ensures ChildReleased(s.win[c], t.win[c], w, c == w) {
      OrphanedChild(s, w, t.win, c);
    }
    ChildSlots(s.win, w, w);
    forall x | x in t.win[w].slots ensures !x.ChildSlot? {
      NoChildSlotLeft(s, w, t.win, x);
    }
    UnmapRows(s, w);
  }

  lemma UnmapRows<W, M>(s: State<W, M>, w: W)
    requires FamilyOk(s.win) && ModelsOk(s) && w in s.win
    ensures var t := OnUnmapped(s, w);
      t.models.Keys == s.models.Keys && forall m | m in s.models :: t.models[m].rows == Without(s.models[m].rows, w)
  {
    UnmapWhole(s, w);
    forall m | m in s.models ensures OnUnmapped(s, w).models[m].rows == Without(s.models[m].rows, w) {
      RemoveRowWithout(s.models[m], w);
    }
  }

  lemma RemoveRowWithout<W>(d: Model<W>, w: W)
    requires NoDup(d.rows)
    ensures RemoveRow(d, w).rows == Without(d.rows, w)
  {
    if w in d.rows {
      RemoveOneIs(d.rows, w);
    } else {
      WithoutNothing(d.rows, w);
    }
  }

  // ---------- Views ----------

  lemma AddRowOk<W>(d: Model<W>, w: W)
    requires ModelOk(d)
    ensures ModelOk(AddRow(d, w))
  {
    var t := AddRow(d, w);
    if w !in d.rows {
      assert t.log[..|t.log| - 1] == d.log;
      assert d.rows[..|d.rows|] + [w] + d.rows[|d.rows|..] == d.rows + [w];
    }
  }

  lemma RemoveRowOk<W>(d: Model<W>, w: W)
    requires ModelOk(d)
    ensures ModelOk(RemoveRow(d, w))
  {
    var t := RemoveRow(d, w);
    if w in d.rows {
      RemoveAtNoDup(d.rows, IndexOf(d.rows, w));
      assert t.log[..|t.log| - 1] == d.log;
    }
  }

  lemma RelayOk<W>(d: Model<W>, w: W)
    requires ModelOk(d)
    ensures ModelOk(Relay(d, w))
  {
    assert Relay(d, w).log[..|d.log|] == d.log;
  }

  lemma ResetOk<W>(d: Model<W>)
    requires ModelOk(d)
    ensures ModelOk(Reset(d))
  {
    assert Reset(d).log[..|d.log|] == d.log;
  }

  // ---------- Every event keeps the invariant ----------

  /** After the unmapping of w, w is nobody's parent, and every other parent still has its child's slot. */
  lemma UnmappedChildOk<W, M>(s: State<W, M>, w: W, t: Windows<W, M>, u: W)
    requires FamilyOk(s.win) && w in s.win && u in s.win
    requires Orphaned(Marked(s, w).win, t, w, s.win[w].slots)
    ensures ChildOk(t, u)
  {
    assert ChildOk(s.win, u);
    ChildSlots(s.win, w, u);
  }

  lemma UnmappedSlotsOk<W, M>(s: State<W, M>, w: W, t: Windows<W, M>, u: W)
    requires FamilyOk(s.win) && w in s.win && u in s.win
    requires Orphaned(Marked(s, w).win, t, w, s.win[w].slots)
    ensures SlotsOk(t, u)
  {
    assert SlotsOk(s.win, u);
    ChildSlots(s.win, w, w);
    forall x | x in t[u].slots && x.ChildSlot?
      ensures x.child in t && t[x.child].connection == Some(u)
    {
      if u == w { NoChildSlotLeft(s, w, t, x); }
      ChildSlots(s.win, w, x.child);
    }
  }

  lemma UnmappedFamily<W, M>(s: State<W, M>, w: W)
    requires FamilyOk(s.win) && ModelsOk(s) && w in s.win
    ensures FamilyOk(OnUnmapped(s, w).win)
  {
    var t := OnUnmapped(s, w).win;
    UnmapWhole(s, w);
    forall u | u in t ensures ChildOk(t, u) && SlotsOk(t, u) {
      UnmappedChildOk(s, w, t, u);
      UnmappedSlotsOk(s, w, t, u);
    }
  }

  lemma UnmappedModelSlots<W, M>(s: State<W, M>, w: W, u: W, m: M)
    requires FamilyOk(s.win) && ModelsOk(s) && w in s.win && u in s.win
    ensures u in OnUnmapped(s, w).win
    ensures ModelSlot(m) in OnUnmapped(s, w).win[u].slots <==> ModelSlot(m) in s.win[u].slots
  {
    var t := OnUnmapped(s, w);
    UnmapWhole(s, w);
    if u == w && ModelSlot(m) in s.win[u].slots {
      assert ModelSlot(m) in multiset(t.win[u].slots);
    }
  }

  lemma UnmappedModelOk<W, M>(s: State<W, M>, w: W, m: M)
    requires FamilyOk(s.win) && ModelsOk(s) && w in s.win && m in s.models
    ensures m in OnUnmapped(s, w).models && ModelOk(OnUnmapped(s, w).models[m])
  {
    UnmapWhole(s, w);
    RemoveRowOk(s.models[m], w);
  }

  lemma UnmappedModels<W, M>(s: State<W, M>, w: W)
    requires FamilyOk(s.win) && ModelsOk(s) && w in s.win
    ensures ModelsOk(OnUnmapped(s, w))
  {
    var t := OnUnmapped(s, w);
    UnmapClearsChildren(s, w);
    forall m | m in t.models
      ensures ModelOk(t.models[m])
      ensures forall u | u in t.models[m].rows :: u in t.win && ModelSlot(m) in t.win[u].slots
    {
      UnmappedModelOk(s, w, m);
      WithoutMembers(s.models[m].rows, w);
      forall u | u in t.models[m].rows ensures u in t.win && ModelSlot(m) in t.win[u].slots {
        UnmappedModelSlots(s, w, u, m);
      }
    }
    forall u, x | u in t.win && x in t.win[u].slots && x.ModelSlot? ensures x.model in t.models {
      UnmappedModelSlots(s, w, u, x.model);
    }
  }

  lemma UnmappedKeepsInv<W, M>(s: State<W, M>, w: W)
    requires Inv(s) && w in s.win
    ensures Inv(OnUnmapped(s, w))
  {
    UnmapClearsChildren(s, w);
    UnmappedFamily(s, w);
    UnmappedModels(s, w);
  }

  /** FamilyOk looks at nothing but the parent links, the unmapped flags and the slots. */
  lemma SameFamily<W, M>(a: Windows<W, M>, b: Windows<W, M>)
    requires FamilyOk(a) && b.Keys == a.Keys
    requires forall u | u in a :: b[u] == a[u].(active := b[u].active)
    ensures FamilyOk(b)
  {
    forall u | u in b ensures ChildOk(b, u) && SlotsOk(b, u) {
      assert ChildOk(a, u) && SlotsOk(a, u);
    }
  }

  lemma SameLinks<W, M>(s: State<W, M>, t: State<W, M>)
    requires Linked(s)
    requires t.windows == s.windows && t.order == s.order
    requires t.win.Keys == s.win.Keys && t.models.Keys == s.models.Keys
    ensures Linked(t)
  {
    assert forall w | w in s.windows :: w in t.win.Keys;
    assert forall m | m in s.order :: m in t.models.Keys;
  }

  // ---------- The activeChanged fan-out ----------

  function Times<T>(n: nat, x: T): seq<T> {
    seq(n, _ => x)
  }

  /** Every addWindow call of a model for w makes it announce the row of w once more. */
  ghost predicate Relayed<W, M>(before: map<M, Model<W>>, after: map<M, Model<W>>, w: W, seen: seq<Slot<W, M>>) {
    && after.Keys == before.Keys
    && (forall m | m in before ::
      && after[m].rows == before[m].rows
      && after[m].log == before[m].log + Times(multiset(seen)[ModelSlot(m)], DataChanged(IndexOf(before[m].rows, w))))
  }

  lemma TimesMore<W, M>(seen: seq<Slot<W, M>>, x: Slot<W, M>, m: M, row: RowSignal<W>)
    ensures var n := multiset(seen)[ModelSlot(m)];
      Times(multiset(seen + [x])[ModelSlot(m)], row) == Times(n, row) + (if x == ModelSlot(m) then [row] else [])
  {
    assert multiset(seen + [x])[ModelSlot(m)] == multiset(seen)[ModelSlot(m)] + (if x == ModelSlot(m) then 1 else 0);
  }

  lemma RelayedStep<W, M>(
      before: map<M, Model<W>>, after: map<M, Model<W>>, w: W, seen: seq<Slot<W, M>>, x: Slot<W, M>)
    requires Relayed(before, after, w, seen)
    requires x.ModelSlot? ==> x.model in before
    ensures Relayed(before, if x.ModelSlot? then after[x.model := Relay(after[x.model], w)] else after, w, seen + [x])
  {
    var t := if x.ModelSlot? then after[x.model := Relay(after[x.model], w)] else after;
    forall m | m in before
      ensures t[m].rows == before[m].rows
      ensures t[m].log
        == before[m].log + Times(multiset(seen + [x])[ModelSlot(m)], DataChanged(IndexOf(before[m].rows, w)))
    {
      TimesMore(seen, x, m, DataChanged(IndexOf(before[m].rows, w)));
    }
  }

  ghost predicate ActiveEffect<W, M>(s: State<W, M>, t: State<W, M>, w: W, seen: seq<Slot<W, M>>)
    requires w in s.win
  {
    var f := if ManagerSlot in seen then FollowActive(s, w) else s;
    t == f.(models := t.models) && Relayed(s.models, t.models, w, seen)
  }

  lemma FollowTwice<W, M>(s: State<W, M>, w: W, models: map<M, Model<W>>)
    requires w in s.win
    ensures var f := FollowActive(s, w).(models := models); f.win == s.win && FollowActive(f, w) == f
  {
  }

  lemma ActiveManagerStep<W, M>(s: State<W, M>, t: State<W, M>, w: W, seen: seq<Slot<W, M>>)
    requires w in s.win && ActiveEffect(s, t, w, seen)
    ensures t.win == s.win && ActiveSlot(t, w, ManagerSlot) == FollowActive(s, w).(models := t.models)
  {
    FollowTwice(s, w, t.models);
  }

  lemma ActiveOtherStep<W, M>(s: State<W, M>, t: State<W, M>, w: W, seen: seq<Slot<W, M>>, x: Slot<W, M>)
    requires w in s.win && ActiveEffect(s, t, w, seen)
    requires x != ManagerSlot && (x.ModelSlot? ==> x.model in t.models)
    ensures t.win == s.win
    ensures ActiveSlot(t, w, x)
      == t.(models := if x.ModelSlot? then t.models[x.model := Relay(t.models[x.model], w)] else t.models)
    ensures ManagerSlot in seen + [x] <==> ManagerSlot in seen
  {
  }

  lemma ActiveStep<W, M>(s: State<W, M>, t: State<W, M>, w: W, seen: seq<Slot<W, M>>, x: Slot<W, M>)
    requires w in s.win && ActiveEffect(s, t, w, seen)
    requires x.ModelSlot? ==> x.model in s.models
    ensures t.win == s.win && ActiveEffect(s, ActiveSlot(t, w, x), w, seen + [x])
  {
    RelayedStep(s.models, t.models, w, seen, x);
    if x == ManagerSlot {
      ActiveManagerStep(s, t, w, seen);
    } else {
      ActiveOtherStep(s, t, w, seen, x);
    }
  }

  lemma {:induction false} ActivePrefix<W, M>(s: State<W, M>, w: W, seen: seq<Slot<W, M>>)
    requires w in s.win
    requires forall x | x in seen :: x.ModelSlot? ==> x.model in s.models
    ensures ActiveEffect(s, EmitActive(s, w, seen), w, seen)
  {
    if seen == [] {
      assert forall m | m in s.models :: s.models[m].log + [] == s.models[m].log;
    } else {
      var before, x := seen[..|seen| - 1], seen[|seen| - 1];
      assert seen == before + [x];
      ActivePrefix(s, w, before);
      ActiveStep(s, EmitActive(s, w, before), w, before, x);
    }
  }

  /** A change of the active flag of w reaches the manager once and each model once for every
      time that model added w. */
  lemma StateChangedEffect<W, M>(s: State<W, M>, w: W, active: bool)
    requires FamilyOk(s.win) && ModelsOk(s) && w in s.win && s.win[w].active != active
    ensures var t := OnStateChanged(s, w, active);
            var f := FollowActive(s.(win := s.win[w := s.win[w].(active := active)]), w);
      t == f.(models := t.models) && Relayed(s.models, t.models, w, s.win[w].slots)
  {
    ChildSlots(s.win, w, w);
    ActivePrefix(s.(win := s.win[w := s.win[w].(active := active)]), w, s.win[w].slots);
  }

  lemma {:induction false} RelayedOk<W>(d: Model<W>, w: W, n: nat, d': Model<W>)
    requires ModelOk(d) && d'.rows == d.rows
    requires d'.log == d.log + Times(n, DataChanged(IndexOf(d.rows, w)))
    ensures ModelOk(d')
  {
    if n == 0 {
      assert d'.log == d.log;
    } else {
      var row: RowSignal<W> := DataChanged(IndexOf(d.rows, w));
      var e := d.(log := d.log + Times(n - 1, row));
      RelayedOk(d, w, n - 1, e);
      assert Times(n, row) == Times(n - 1, row) + [row];
      assert d' == Relay(e, w);
      RelayOk(e, w);
    }
  }

  lemma StateChangedModels<W, M>(s: State<W, M>, w: W, active: bool)
    requires FamilyOk(s.win) && ModelsOk(s) && w in s.win && s.win[w].active != active
    ensures ModelsOk(OnStateChanged(s, w, active))
  {
    var t := OnStateChanged(s, w, active);
    StateChangedEffect(s, w, active);
    forall m | m in t.models ensures ModelOk(t.models[m]) {
      RelayedOk(s.models[m], w, multiset(s.win[w].slots)[ModelSlot(m)], t.models[m]);
    }
  }

  lemma StateChangedFrame<W, M>(s: State<W, M>, w: W, active: bool)
    requires FamilyOk(s.win) && ModelsOk(s) && ActiveOk(s) && w in s.win && s.win[w].active != active
    ensures var t := OnStateChanged(s, w, active);
      && t.windows == s.windows && t.order == s.order && t.models.Keys == s.models.Keys
      && t.win == s.win[w := s.win[w].(active := active)]
      && ActiveOk(t)
  {
    StateChangedEffect(s, w, active);
  }

  lemma StateChangedKeepsInv<W, M>(s: State<W, M>, w: W, active: bool)
    requires Inv(s) && w in s.win
    ensures Inv(OnStateChanged(s, w, active))
  {
    if s.win[w].active != active {
      var t := OnStateChanged(s, w, active);
      StateChangedFrame(s, w, active);
      StateChangedModels(s, w, active);
      SameFamily(s.win, t.win);
      SameLinks(s, t);
    }
  }

  // ---------- The destroyed fan-out ----------

  ghost predicate DestroyedUpTo<W, M>(s: State<W, M>, t: State<W, M>, w: W, seen: seq<Slot<W, M>>) {
    var f := if ManagerSlot in seen then DropActive(s, w).(windows := Without(s.windows, w)) else s;
    t == f.(models := t.models) && RowsGone(s.models, t.models, w, seen)
  }

  lemma DestroyedStep<W, M>(s: State<W, M>, t: State<W, M>, w: W, seen: seq<Slot<W, M>>, x: Slot<W, M>)
    requires DestroyedUpTo(s, t, w, seen)
    requires forall m | m in s.models :: NoDup(s.models[m].rows)
    requires x.ModelSlot? ==> x.model in s.models
    ensures DestroyedUpTo(s, DestroyedSlot(t, w, x), w, seen + [x])
  {
    RowsGoneStep(s.models, t.models, w, seen, x);
    if x == ManagerSlot {
      WithoutMembers(s.windows, w);
      WithoutNothing(Without(s.windows, w), w);
      DropTwice(s, w, t.models);
    } else {
      assert ManagerSlot in seen + [x] <==> ManagerSlot in seen;
    }
  }

  lemma DropTwice<W, M>(s: State<W, M>, w: W, models: map<M, Model<W>>)
    requires Without(Without(s.windows, w), w) == Without(s.windows, w)
    ensures var f := DropActive(s, w).(windows := Without(s.windows, w));
      && DestroyedSlot(f.(models := models), w, ManagerSlot) == f.(models := models)
      && DestroyedSlot(s.(models := models), w, ManagerSlot) == f.(models := models)
  {
  }

  lemma {:induction false} DestroyedPrefix<W, M>(s: State<W, M>, w: W, seen: seq<Slot<W, M>>)
    requires forall m | m in s.models :: NoDup(s.models[m].rows)
    requires forall x | x in seen :: x.ModelSlot? ==> x.model in s.models
    ensures DestroyedUpTo(s, EmitDestroyed(s, w, seen), w, seen)
  {
    if seen != [] {
      var before, x := seen[..|seen| - 1], seen[|seen| - 1];
      assert seen == before + [x];
      DestroyedPrefix(s, w, before);
      DestroyedStep(s, EmitDestroyed(s, w, before), w, before, x);
    }
  }

  /** Destroying w erases it from the manager, from every model and from every parent link. */
  lemma DestroyedEffect<W, M>(s: State<W, M>, w: W)
    requires FamilyOk(s.win) && ModelsOk(s) && w in s.win
    ensures var t := OnDestroyed(s, w);
      && t == Forget(DropActive(s, w), w).(windows := Without(s.windows, w), models := t.models)
      && RowsGone(s.models, t.models, w, s.win[w].slots)
      && forall m | m in s.models :: t.models[m].rows == Without(s.models[m].rows, w)
  {
    ChildSlots(s.win, w, w);
    DestroyedPrefix(s, w, s.win[w].slots);
    forall m | m in s.models ensures OnDestroyed(s, w).models[m].rows == Without(s.models[m].rows, w) {
      RemoveRowWithout(s.models[m], w);
    }
  }

  lemma ForgetSlots<W, M>(s: State<W, M>, w: W, u: W)
    requires w in s.win && u in s.win && u != w
    ensures var slots := Forget(s, w).win[u].slots;
      && multiset(slots) == multiset(s.win[u].slots)[ChildSlot(w) := 0]
      && (forall x | x in slots :: x in s.win[u].slots && x != ChildSlot(w))
      && (forall x | x in s.win[u].slots && x != ChildSlot(w) :: x in slots)
  {
    WithoutCount(s.win[u].slots, ChildSlot(w));
    WithoutMembers(s.win[u].slots, ChildSlot(w));
  }

  lemma ForgetFamily<W, M>(s: State<W, M>, w: W)
    requires FamilyOk(s.win) && w in s.win
    ensures FamilyOk(Forget(s, w).win)
  {
    var t := Forget(s, w).win;
    forall u | u in t ensures ChildOk(t, u) {
      assert ChildOk(s.win, u);
      if t[u].parent.Some? {
        ForgetSlots(s, w, t[u].parent.value);
      }
    }
    forall u | u in t ensures SlotsOk(t, u) {
      assert SlotsOk(s.win, u);
      ForgetSlots(s, w, u);
      forall x | x in t[u].slots && x.ChildSlot? ensures x.child in t && t[x.child].connection == Some(u) {
        assert x == ChildSlot(x.child);
      }
    }
  }

  lemma DestroyedModels<W, M>(s: State<W, M>, w: W)
    requires FamilyOk(s.win) && ModelsOk(s) && w in s.win
    ensures ModelsOk(OnDestroyed(s, w))
  {
    var t := OnDestroyed(s, w);
    DestroyedEffect(s, w);
    assert t.win == Forget(s, w).win;
    forall m | m in t.models
      ensures ModelOk(t.models[m])
      ensures forall u | u in t.models[m].rows :: u in t.win && ModelSlot(m) in t.win[u].slots
    {
      RemoveRowOk(s.models[m], w);
      DestroyedRows(s, w, m);
    }
    forall u | u in t.win ensures forall x | x in t.win[u].slots :: x.ModelSlot? ==> x.model in t.models {
      ForgetSlots(s, w, u);
    }
  }

  lemma DestroyedRows<W, M>(s: State<W, M>, w: W, m: M)
    requires ModelsOk(s) && w in s.win && m in s.models
    ensures var win := Forget(s, w).win;
      forall u | u in Without(s.models[m].rows, w) :: u in win && ModelSlot(m) in win[u].slots
  {
    WithoutMembers(s.models[m].rows, w);
    forall u | u in Without(s.models[m].rows, w) ensures ModelSlot(m) in Forget(s, w).win[u].slots {
      ForgetSlots(s, w, u);
    }
  }

  lemma DestroyedKeepsInv<W, M>(s: State<W, M>, w: W)
    requires Inv(s) && w in s.win
    ensures Inv(OnDestroyed(s, w))
  {
    var t := OnDestroyed(s, w);
    DestroyedEffect(s, w);
    DestroyedModels(s, w);
    ForgetFamily(s, w);
    assert t.win == Forget(s, w).win;
    assert t.win.Keys == s.win.Keys - {w};
    WithoutNoDup(s.windows, w);
    WithoutMembers(s.windows, w);
    assert ActiveOk(t);
  }

  // ---------- The remaining events ----------

  lemma CreatedKeepsInv<W, M>(s: State<W, M>, w: W)
    requires Inv(s) && w !in s.win
    ensures Inv(OnCreated(s, w))
  {
    var t := OnCreated(s, w);
    forall u | u in t.win ensures ChildOk(t.win, u) && SlotsOk(t.win, u) {
      if u != w {
        assert ChildOk(s.win, u) && SlotsOk(s.win, u);
      }
    }
    AppendNoDup(s.windows, w);
  }

  lemma ParentWindowModels<W, M>(s: State<W, M>, c: W, p: Option<W>)
    requires FamilyOk(s.win) && ModelsOk(s) && c in s.win
    ensures ModelsOk(s.(win := SetParent(s.win, c, p)))
  {
    var t := SetParent(s.win, c, p);
    forall u | u in s.win
      ensures forall x | x in t[u].slots && x.ModelSlot? :: x in s.win[u].slots
      ensures forall x | x in s.win[u].slots && x.ModelSlot? :: x in t[u].slots
    {
      OneSender(s.win, c);
      SetParentSlots(s.win, c, p, u);
      forall x | x in t[u].slots && x.ModelSlot? ensures x in s.win[u].slots {
        assert x in multiset(t[u].slots);
      }
      forall x | x in s.win[u].slots && x.ModelSlot? ensures x in t[u].slots {
        assert x in multiset(s.win[u].slots);
        assert x in multiset(t[u].slots);
      }
    }
    SetParentFields(s.win, c, p, c);
  }

  lemma ParentWindowKeepsInv<W, M>(s: State<W, M>, c: W, p: Option<W>)
    requires Inv(s) && c in s.win
    ensures Inv(s.(win := SetParent(s.win, c, p)))
  {
    var t := s.(win := SetParent(s.win, c, p));
    SetParentFamily(s.win, c, p);
    ParentWindowModels(s, c, p);
    SetParentFields(s.win, c, p, c);
    SameLinks(s, t);
    if s.active.Some? {
      SetParentFields(s.win, c, p, s.active.value);
    }
  }

  lemma ModelSlotChild<W, M>(win: Windows<W, M>, w: W, m: M, u: W)
    requires FamilyOk(win) && w in win && u in win
    ensures ChildOk(SetSlots(win, w, win[w].slots + [ModelSlot(m)]), u)
  {
    assert ChildOk(win, u);
  }

  lemma ModelSlotSlots<W, M>(win: Windows<W, M>, w: W, m: M, u: W)
    requires FamilyOk(win) && w in win && u in win
    ensures SlotsOk(SetSlots(win, w, win[w].slots + [ModelSlot(m)]), u)
  {
    assert SlotsOk(win, u);
    var slots := SetSlots(win, w, win[w].slots + [ModelSlot(m)])[u].slots;
    assert multiset(slots)[ManagerSlot] == multiset(win[u].slots)[ManagerSlot];
    assert forall x | x in slots && x.ChildSlot? :: x in win[u].slots;
  }

  /** Appending model slots changes nothing for the family. */
  lemma ModelSlotFamily<W, M>(win: Windows<W, M>, w: W, m: M)
    requires FamilyOk(win) && w in win
    ensures FamilyOk(SetSlots(win, w, win[w].slots + [ModelSlot(m)]))
  {
    var t := SetSlots(win, w, win[w].slots + [ModelSlot(m)]);
    forall u | u in t ensures ChildOk(t, u) && SlotsOk(t, u) {
      ModelSlotChild(win, w, m, u);
      ModelSlotSlots(win, w, m, u);
    }
  }

  lemma AddWindowModels<W, M>(s: State<W, M>, m: M, w: W)
    requires ModelsOk(s) && w in s.win && m in s.models
    ensures ModelsOk(AddWindow(s, m, w))
  {
    AddRowOk(s.models[m], w);
    var t := AddWindow(s, m, w);
    forall u | u in t.win
      ensures forall x | x in s.win[u].slots :: x in t.win[u].slots
      ensures forall x | x in t.win[u].slots :: x.ModelSlot? ==> x.model in t.models
    {
    }
    forall n | n in t.models
      ensures ModelOk(t.models[n])
      ensures forall u | u in t.models[n].rows :: u in t.win && ModelSlot(n) in t.win[u].slots
    {
    }
  }

  lemma AddWindowFrame<W, M>(s: State<W, M>, m: M, w: W)
    requires Linked(s) && ActiveOk(s) && w in s.win && m in s.models
    ensures Linked(AddWindow(s, m, w)) && ActiveOk(AddWindow(s, m, w))
  {
    SameLinks(s, AddWindow(s, m, w));
  }

  lemma AddWindowKeepsInv<W, M>(s: State<W, M>, m: M, w: W)
    requires Inv(s) && w in s.win && m in s.models
    ensures Inv(AddWindow(s, m, w))
  {
    AddWindowFrame(s, m, w);
    AddWindowModels(s, m, w);
    ModelSlotFamily(s.win, w, m);
  }

  lemma {:induction false} CreatedSignalKeepsInv<W, M>(s: State<W, M>, w: W, order: seq<M>)
    requires Inv(s) && w in s.win && forall m | m in order :: m in s.models
    ensures Inv(EmitCreated(s, w, order))
  {
    if order != [] {
      CreatedSignalKeepsInv(s, w, order[..|order| - 1]);
      AddWindowKeepsInv(EmitCreated(s, w, order[..|order| - 1]), order[|order| - 1], w);
    }
  }

  lemma {:induction false} SnapshotKeepsInv<W, M>(s: State<W, M>, m: M, windows: seq<W>)
    requires Inv(s) && m in s.models && forall w | w in windows :: w in s.win
    ensures Inv(Snapshot(s, m, windows))
  {
    if windows != [] {
      SnapshotKeepsInv(s, m, windows[..|windows| - 1]);
      AddWindowKeepsInv(Snapshot(s, m, windows[..|windows| - 1]), m, windows[|windows| - 1]);
    }
  }

  lemma NewModelKeepsInv<W, M>(s: State<W, M>, m: M)
    requires Inv(s) && m !in s.models
    ensures Inv(s.(order := s.order + [m], models := s.models[m := Model([], [])]))
  {
    AppendNoDup(s.order, m);
  }

  lemma {:induction false} ReleasedSignalEffect<W, M>(s: State<W, M>, order: seq<M>)
    requires NoDup(order) && forall m | m in order :: m in s.models
    ensures var t := EmitReleased(s, order);
      && t == s.(models := t.models)
      && forall m | m in s.models :: t.models[m] == if m in order then Reset(s.models[m]) else s.models[m]
  {
    if order != [] {
      var before, m := order[..|order| - 1], order[|order| - 1];
      assert order == before + [m];
      assert m !in before;
      ReleasedSignalEffect(s, before);
    }
  }

  lemma ReleasedKeepsInv<W, M>(s: State<W, M>)
    requires Inv(s)
    ensures Inv(OnReleased(s))
  {
    ReleasedSignalEffect(s, s.order);
    forall m | m in s.models ensures ModelOk(Reset(s.models[m])) {
      ResetOk(s.models[m]);
    }
  }

  /** Whatever the compositor and the client do, every event keeps the invariant. */
  lemma StepKeepsInv<W, M>(s: State<W, M>, e: Event<W, M>)
    requires Inv(s) && Enabled(s, e)
    ensures Inv(Step(s, e))
  {
    match e
    case Created(w) => CreatedKeepsInv(s, w);
    case StateChanged(w, active) => StateChangedKeepsInv(s, w, active);
    case ParentWindow(w, parent) => ParentWindowKeepsInv(s, w, Lookup(s, parent));
    case InitialState(w) => CreatedSignalKeepsInv(s, w, s.order);
    case Unmapped(w) => UnmappedKeepsInv(s, w);
    case Destroyed(w) => DestroyedKeepsInv(s, w);
    case ModelCreated(m) =>
      NewModelKeepsInv(s, m);
      SnapshotKeepsInv(s.(order := s.order + [m], models := s.models[m := Model([], [])]), m, s.windows);
    case Released => ReleasedKeepsInv(s);
    case Setup =>
  }
}
