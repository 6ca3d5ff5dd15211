/** The rows of a list model in closed form, read off the whole history of the window tracking protocol. */
module WindowRows {
  import opened Lists
  import opened WindowState
  import opened WindowRuns

  // ---------- Lists that grow by offers and shrink by drops ----------

  datatype Drop<W> = Nothing | One(w: W) | Everything

  /** What an event means for a model: the windows it offers, and what it takes out. */
  datatype Mark<W> = Mark(offers: seq<W>, drop: Drop<W>)

  predicate Stays<W(==)>(drop: Drop<W>, w: W) {
    match drop
    case Nothing => true
    case One(u) => w != u
    case Everything => false
  }

  /** The i-th event offers w, and no later event takes it out. */
  ghost predicate Standing<W>(marks: seq<Mark<W>>, i: nat, w: W)
    requires i < |marks|
  {
    w in marks[i].offers && forall j | i < j < |marks| :: Stays(marks[j].drop, w)
  }

  /** The i-th event is the first one with a standing offer of w. */
  ghost predicate Earliest<W>(marks: seq<Mark<W>>, i: nat, w: W)
    requires i < |marks|
  {
    Standing(marks, i, w) && forall j | 0 <= j < i :: !Standing(marks, j, w)
  }

  /** The windows listed on account of the i-th event, in the order in which it offered them. */
  ghost function Entry<W>(marks: seq<Mark<W>>, i: nat): seq<W>
    requires i < |marks|
  {
    Keep(marks[i].offers, (w: W) => Earliest(marks, i, w))
  }

  ghost function Entries<W>(marks: seq<Mark<W>>): seq<seq<W>> {
    seq(|marks|, i requires 0 <= i < |marks| => Entry(marks, i))
  }

  lemma EarliestStep<W>(marks: seq<Mark<W>>, x: Mark<W>, i: nat, w: W)
    requires i < |marks|
    ensures Earliest(marks + [x], i, w) <==> Earliest(marks, i, w) && Stays(x.drop, w)
  {
    forall j | 0 <= j < |marks| ensures Standing(marks + [x], j, w) <==> Standing(marks, j, w) && Stays(x.drop, w) {
      StandingStep(marks, x, j, w);
    }
  }

  lemma StandingStep<W>(marks: seq<Mark<W>>, x: Mark<W>, i: nat, w: W)
    requires i < |marks|
    ensures Standing(marks + [x], i, w) <==> Standing(marks, i, w) && Stays(x.drop, w)
  {
    var more := marks + [x];
    assert forall j | 0 <= j < |marks| :: more[j] == marks[j];
    assert more[|marks|] == x;
  }

  lemma EntryStep<W>(marks: seq<Mark<W>>, x: Mark<W>, i: nat)
    requires i < |marks|
    ensures Entry(marks + [x], i) == Keep(Entry(marks, i), (w: W) => Stays(x.drop, w))
  {
    var offers := marks[i].offers;
    assert (marks + [x])[i] == marks[i];
    forall w | w in offers ensures Earliest(marks + [x], i, w) <==> Earliest(marks, i, w) && Stays(x.drop, w) {
      EarliestStep(marks, x, i, w);
    }
    KeepTwice(offers, (w: W) => Earliest(marks, i, w), (w: W) => Stays(x.drop, w),
              (w: W) => Earliest(marks + [x], i, w));
  }

  lemma {:induction false} SomeEarliest<W>(marks: seq<Mark<W>>, i: nat, w: W) returns (k: nat)
    requires i < |marks| && Standing(marks, i, w)
    ensures k < |marks| && Earliest(marks, k, w)
  {
    if j :| 0 <= j < i && Standing(marks, j, w) {
      k := SomeEarliest(marks, j, w);
    } else {
      k := i;
    }
  }

  /** A window is listed exactly when some offer of it stands. */
  lemma ListedStands<W>(marks: seq<Mark<W>>, w: W)
    ensures w in Flatten(Entries(marks)) <==> exists i | 0 <= i < |marks| :: Standing(marks, i, w)
  {
    if w in Flatten(Entries(marks)) {
      FlattenMember(Entries(marks), w);
      var i :| 0 <= i < |marks| && w in Entries(marks)[i];
      KeepMembers(marks[i].offers, (w: W) => Earliest(marks, i, w));
    }
    if i :| 0 <= i < |marks| && Standing(marks, i, w) {
      var k := SomeEarliest(marks, i, w);
      KeepMembers(marks[k].offers, (w: W) => Earliest(marks, k, w));
      assert w in Entries(marks)[k];
      FlattenContains(Entries(marks), k, w);
    }
  }

  /** An event that takes nothing out adds what it offers and is not listed yet. */
  lemma NewEntry<W>(marks: seq<Mark<W>>, x: Mark<W>)
    requires x.drop.Nothing? || x.offers == []
    ensures Entry(marks + [x], |marks|) == Keep(x.offers, (w: W) => w !in Flatten(Entries(marks)))
  {
    var more, n := marks + [x], |marks|;
    assert more[n] == x;
    forall w | w in x.offers ensures Earliest(more, n, w) <==> w !in Flatten(Entries(marks)) {
      ListedStands(marks, w);
      forall j | 0 <= j < n ensures Standing(more, j, w) <==> Standing(marks, j, w) {
        StandingStep(marks, x, j, w);
      }
    }
    KeepSame(x.offers, (w: W) => Earliest(more, n, w), (w: W) => w !in Flatten(Entries(marks)));
  }

  /** The closed form follows every event by taking out and then adding. */
  lemma EntriesStep<W>(marks: seq<Mark<W>>, x: Mark<W>)
    requires x.drop.Nothing? || x.offers == []
    ensures var rows := Flatten(Entries(marks));
      Flatten(Entries(marks + [x])) == Keep(rows, (w: W) => Stays(x.drop, w)) + Keep(x.offers, (w: W) => w !in rows)
  {
    forall i | 0 <= i < |marks|
      ensures Entries(marks + [x])[i] == Keep(Entries(marks)[i], (w: W) => Stays(x.drop, w))
    {
      EntryStep(marks, x, i);
    }
    FlattenStep(Entries(marks), Entries(marks + [x]), (w: W) => Stays(x.drop, w));
    NewEntry(marks, x);
  }

  // ---------- The rows of a model ----------

  /** The windows an event offers to m: all that the manager lists when m is constructed, and later each
      mapped window that announces its initial state. */
  function Offers<W, M(==)>(s: State<W, M>, e: Event<W, M>, m: M): seq<W> {
    match e
    case ModelCreated(n) => if n == m then s.windows else []
    case InitialState(w) => if m in s.models && w in s.win && !s.win[w].unmapped then [w] else []
    case _ => []
  }

  /** An unmapping or deletion takes one window out of every model, a release takes all. */
  function Takes<W, M>(s: State<W, M>, e: Event<W, M>): Drop<W> {
    match e
    case Unmapped(w) => One(w)
    case Destroyed(w) => One(w)
    case Released => if s.bound then Everything else Nothing
    case _ => Nothing
  }

  ghost function RowMarks<W, M>(trace: seq<Event<W, M>>, m: M): (marks: seq<Mark<W>>)
    requires Legal(trace)
    ensures |marks| == |trace|
  {
    if trace == [] then []
    else
      var s, e := Run(Before(trace)), Last(trace);
      RowMarks(Before(trace), m) + [Mark(Offers(s, e, m), Takes(s, e))]
  }

  /** How the rows follow one event, in terms of offers and drops. */
  lemma NextRowsAre<W, M>(s: State<W, M>, e: Event<W, M>, m: M)
    requires Enabled(s, e) && m in s.models
    ensures var rows := s.models[m].rows;
      NextRows(s, e, rows)
      == Keep(rows, (w: W) => Stays(Takes(s, e), w)) + Keep(Offers(s, e, m), (w: W) => w !in rows)
  {
    var rows := s.models[m].rows;
    var stays := (w: W) => Stays(Takes(s, e), w);
    var isNew := (w: W) => w !in rows;
    match e
    case Unmapped(w) => WithoutIsKeep(rows, w, stays);
    case Destroyed(w) => WithoutIsKeep(rows, w, stays);
    case Released => if s.bound { KeepNone(rows, stays); } else { KeepAll(rows, stays); }
    case InitialState(w) =>
      KeepAll(rows, stays);
      KeepOne(w, isNew);
    case _ => KeepAll(rows, stays);
  }

  function RowsOf<W, M(==)>(s: State<W, M>, m: M): seq<W> {
    if m in s.models then s.models[m].rows else []
  }

  lemma RowsStep<W, M>(s: State<W, M>, e: Event<W, M>, t: State<W, M>, m: M)
    requires Enabled(s, e) && RowsAfter(s, e, t)
    ensures var rows := RowsOf(s, m);
      RowsOf(t, m) == Keep(rows, (w: W) => Stays(Takes(s, e), w)) + Keep(Offers(s, e, m), (w: W) => w !in rows)
  {
    if m in s.models {
      NextRowsAre(s, e, m);
    } else {
      KeepAll(Offers(s, e, m), (w: W) => w !in RowsOf(s, m));
    }
  }

  /** On every run, the rows of a model are the windows with a standing offer - offered by the construction
      of the model or by an initial state since, and not unmapped, deleted or released since the offer - in
      the order of their earliest standing offers. There are none before the model is constructed. */
  lemma {:induction false} RowsExactly<W, M>(trace: seq<Event<W, M>>, m: M)
    requires Legal(trace)
    ensures RowsOf(Run(trace), m) == Flatten(Entries(RowMarks(trace, m)))
  {
    if trace != [] {
      var s, e := Run(Before(trace)), Last(trace);
      RowsExactly(Before(trace), m);
      RunKeepsInv(Before(trace));
      StepRows(s, e);
      RowsStep(s, e, Run(trace), m);
      EntriesStep(RowMarks(Before(trace), m), Mark(Offers(s, e, m), Takes(s, e)));
    }
  }
}
