/** The delegation ledger of a hub, and its merge when hubs migrate. */
module DelegationLedger {
  import opened Wrappers

  const DELEGATION_LEDGER_LIMIT := 256

  datatype State = Dispatched | Done | Blocked | Failed | Accepted | Rejected

  datatype QuotaReport = QuotaReport(worker: string, attempt: real, dispatch: string)

  /** `extra` are the fields a record carries along unread. */
  datatype Record = Record(
    worker: string,
    attempt: int,
    deadline: real,
    budgetMinutes: int,
    dispatch: string,
    state: State,
    quotaReport: Option<QuotaReport>,
    conflicted: Option<bool>,
    extra: map<string, string>)
  {
    predicate Valid() {
      worker != "" && 1 <= attempt <= 2 && 1 <= budgetMinutes <= 1440
    }

    predicate Flagged() {
      conflicted == Some(true)
    }

    predicate SameOwner(other: Record) {
      worker == other.worker && dispatch == other.dispatch
    }
  }

  type Ledger = map<string, Record>

  /** What is found where a ledger is stored. */
  datatype Stored = Undefined | NotALedger | Stored(ledger: Ledger)

  datatype MergeError = Malformed | LedgerFull

  predicate ValidLedger(l: Ledger) {
    |l| <= DELEGATION_LEDGER_LIMIT && forall id :: id in l ==> l[id].Valid()
  }

  /** The schema check; an absent ledger is an empty one. */
  function Parse(s: Stored): Result<Ledger, MergeError> {
    match s
    case Undefined => Ok(map[])
    case NotALedger => Err(Malformed)
    case Stored(l) => if ValidLedger(l) then Ok(l) else Err(Malformed)
  }

  function Min(x: real, y: real): real {
    if x <= y then x else y
  }

  /** One task in both ledgers: `newer` is the destination's record, `older` the source's. */
  function MergeRecords(newer: Record, older: Record): Record {
    var winner := if older.attempt > newer.attempt then older else newer;
    var conflict := older.attempt == newer.attempt && !older.SameOwner(newer);
    winner.(
      attempt := if older.attempt > newer.attempt then older.attempt else newer.attempt,
      deadline := Min(older.deadline, newer.deadline),
      budgetMinutes := if older.budgetMinutes < newer.budgetMinutes then older.budgetMinutes else newer.budgetMinutes,
      conflicted := if older.Flagged() || newer.Flagged() || conflict then Some(true) else winner.conflicted)
  }

  function MergedEntry(to: Ledger, from: Ledger, id: string): Record
    requires id in to || id in from
  {
    if id !in from then to[id]
    else if id !in to then from[id]
    else MergeRecords(to[id], from[id])
  }

  function MergeMaps(to: Ledger, from: Ledger): Ledger {
    map id | id in to.Keys + from.Keys :: MergedEntry(to, from, id)
  }

  function Merge(destination: Stored, source: Stored): Result<Ledger, MergeError> {
    match (Parse(destination), Parse(source))
    case (Err(e), _) => Err(e)
    case (Ok(_), Err(e)) => Err(e)
    case (Ok(to), Ok(from)) =>
      var merged := MergeMaps(to, from);
      if |merged| > DELEGATION_LEDGER_LIMIT then Err(LedgerFull) else Ok(merged)
  }

  /** The merging loop has handled every entry of the source except those in `rest`. */
  ghost predicate Progress(merged: Ledger, to: Ledger, from: Ledger, rest: set<string>) {
    && merged.Keys == to.Keys + (from.Keys - rest)
    && (forall id :: id in to && (id !in from || id in rest) ==> merged[id] == to[id])
    && (forall id :: id in from && id !in rest ==> merged[id] == MergedEntry(to, from, id))
  }

  lemma ProgressDone(merged: Ledger, to: Ledger, from: Ledger)
    requires Progress(merged, to, from, {})
    ensures merged == MergeMaps(to, from)
  {
    assert merged.Keys == MergeMaps(to, from).Keys;
  }

  lemma ProgressStep(merged: Ledger, to: Ledger, from: Ledger, rest: set<string>, id: string)
    requires Progress(merged, to, from, rest) && rest <= from.Keys && id in rest
    ensures Progress(merged[id := if id in merged then MergeRecords(merged[id], from[id]) else from[id]], to, from, rest - {id})
  {
  }

  /** The merging loop; the entries of the source may come in any order. */
  method MergeEntries(to: Ledger, from: Ledger) returns (merged: Ledger)
    ensures merged == MergeMaps(to, from)
  {
    merged := to;
    var rest := from.Keys;
    while rest != {}
      invariant rest <= from.Keys && Progress(merged, to, from, rest)
    {
      var id :| id in rest;
      ProgressStep(merged, to, from, rest, id);
      if id !in merged {
        merged := merged[id := from[id]];
      } else {
        merged := merged[id := MergeRecords(merged[id], from[id])];
      }
      rest := rest - {id};
    }
    ProgressDone(merged, to, from);
  }

  /** The tasks stored: none where there is no ledger yet. */
  function Tasks(s: Stored): Ledger {
    if s.Stored? then s.ledger else map[]
  }

  /** A ledger that the schema accepts, or none at all. */
  predicate Acceptable(s: Stored) {
    && s != NotALedger
    && |Tasks(s)| <= 256
    && forall id :: id in Tasks(s) ==>
         var r := Tasks(s)[id];
         r.worker != "" && (r.attempt == 1 || r.attempt == 2) && 1 <= r.budgetMinutes <= 1440
  }

  /** The record of a task in both ledgers: that of the later attempt, or of the destination, with the tighter limits. */
  predicate Combined(m: Record, to: Record, from: Record) {
    var winner := if from.attempt > to.attempt then from else to;
    var disputed := from.attempt == to.attempt && (from.worker != to.worker || from.dispatch != to.dispatch);
    && m.worker == winner.worker && m.dispatch == winner.dispatch && m.state == winner.state
    && m.quotaReport == winner.quotaReport && m.extra == winner.extra && m.attempt == winner.attempt
    && m.deadline == (if to.deadline <= from.deadline then to.deadline else from.deadline)
    && m.budgetMinutes == (if to.budgetMinutes <= from.budgetMinutes then to.budgetMinutes else from.budgetMinutes)
    && (m.conflicted == Some(true) <==> to.conflicted == Some(true) || from.conflicted == Some(true) || disputed)
  }

  lemma ParseMeans(s: Stored)
    ensures Parse(s) == if Acceptable(s) then Ok(Tasks(s)) else Err(Malformed)
  {
  }

  lemma CombinedMeans(m: Record, to: Record, from: Record)
    requires m == MergeRecords(to, from)
    ensures Combined(m, to, from)
  {
  }

  lemma MergedMeans(to: Ledger, from: Ledger)
    ensures MergeMaps(to, from).Keys == to.Keys + from.Keys && |MergeMaps(to, from)| == |to.Keys + from.Keys|
    ensures forall id :: id in to && id in from ==> Combined(MergeMaps(to, from)[id], to[id], from[id])
  {
    var m := MergeMaps(to, from);
    assert m.Keys == to.Keys + from.Keys && |m| == |m.Keys|;
    forall id | id in to && id in from ensures Combined(m[id], to[id], from[id]) {
      CombinedMeans(m[id], to[id], from[id]);
    }
  }

  /** What a merge returns, for every pair of stored values. */
  predicate MergeResult(r: Result<Ledger, MergeError>, destination: Stored, source: Stored) {
    var to, from := Tasks(destination), Tasks(source);
    if !Acceptable(destination) || !Acceptable(source) then r == Err(Malformed)
    else if |to.Keys + from.Keys| > 256 then r == Err(LedgerFull)
    else
      && r.Ok? && r.value.Keys == to.Keys + from.Keys
      && (forall id :: id in to && id !in from ==> r.value[id] == to[id])
      && (forall id :: id in from && id !in to ==> r.value[id] == from[id])
      && (forall id :: id in to && id in from ==> Combined(r.value[id], to[id], from[id]))
  }

  lemma MergeMeans(destination: Stored, source: Stored)
    ensures MergeResult(Merge(destination, source), destination, source)
  {
    ParseMeans(destination);
    ParseMeans(source);
    MergedMeans(Tasks(destination), Tasks(source));
  }

  method MergeDelegationLedgers(destination: Stored, source: Stored) returns (r: Result<Ledger, MergeError>)
    ensures r == Merge(destination, source)
    ensures MergeResult(r, destination, source)
  {
    MergeMeans(destination, source);
    var to, from := Parse(destination), Parse(source);
    if to.Err? { return to; }
    if from.Err? { return from; }
    var merged := MergeEntries(to.value, from.value);
    if |merged| > DELEGATION_LEDGER_LIMIT {
      return Err(LedgerFull);
    }
    return Ok(merged);
  }

  // ---------- Merge trees ----------

  /** Any history of migrations: ledgers, merged pairwise in some shape and order. */
  datatype Tree = Leaf(ledger: Ledger) | Node(destination: Tree, source: Tree)

  function Eval(t: Tree): Result<Ledger, MergeError> {
    match t
    case Leaf(l) => Parse(Stored(l))
    case Node(d, s) =>
      match (Eval(d), Eval(s))
      case (Err(e), _) => Err(e)
      case (Ok(_), Err(e)) => Err(e)
      case (Ok(to), Ok(from)) => Merge(Stored(to), Stored(from))
  }

  function Leaves(t: Tree): seq<Ledger> {
    match t
    case Leaf(l) => [l]
    case Node(d, s) => Leaves(d) + Leaves(s)
  }

  /** All records for one task, and all tasks, in the ledgers of a tree. */
  function Entries(t: Tree, id: string): set<Record> {
    match t
    case Leaf(l) => if id in l then {l[id]} else {}
    case Node(d, s) => Entries(d, id) + Entries(s, id)
  }

  function Ids(t: Tree): set<string> {
    match t
    case Leaf(l) => l.Keys
    case Node(d, s) => Ids(d) + Ids(s)
  }

  predicate AllValid(t: Tree) {
    match t
    case Leaf(l) => ValidLedger(l)
    case Node(d, s) => AllValid(d) && AllValid(s)
  }

  ghost predicate SameLedgers(t: Tree, t': Tree) {
    forall l :: l in Leaves(t) <==> l in Leaves(t')
  }

  /** The merged attempt is the largest, the deadline and the budget are the smallest among the entries. */
  ghost predicate Bounds(m: Record, es: set<Record>) {
    && (forall e :: e in es ==> e.attempt <= m.attempt && m.deadline <= e.deadline && m.budgetMinutes <= e.budgetMinutes)
    && (exists e :: e in es && e.deadline == m.deadline)
    && (exists e :: e in es && e.budgetMinutes == m.budgetMinutes)
  }

  /** The owner is that of an entry at the winning attempt. */
  ghost predicate Owned(m: Record, es: set<Record>) {
    exists e :: e in es && e.attempt == m.attempt && e.SameOwner(m)
  }

  /** All entries at the winning attempt name the merged owner, and none is flagged. */
  ghost predicate Agreed(m: Record, es: set<Record>) {
    forall e :: e in es ==> !e.Flagged() && (e.attempt == m.attempt ==> e.SameOwner(m))
  }

  /** Some entry came flagged, or two entries disagree about one attempt. */
  ghost predicate Disputed(es: set<Record>) {
    || (exists e :: e in es && e.Flagged())
    || exists e, e' :: e in es && e' in es && e.attempt == e'.attempt && !e.SameOwner(e')
  }

  ghost predicate Summarises(m: Record, es: set<Record>) {
    && Bounds(m, es) && Owned(m, es)
    && if m.Flagged() then Disputed(es) else Agreed(m, es)
  }

  lemma MergeBounds(x: Record, y: Record, a: set<Record>, b: set<Record>)
    requires Bounds(x, a) && Bounds(y, b)
    ensures Bounds(MergeRecords(x, y), a + b)
  {
    var m := MergeRecords(x, y);
    var dx :| dx in a && dx.deadline == x.deadline;
    var dy :| dy in b && dy.deadline == y.deadline;
    assert (if m.deadline == x.deadline then dx else dy) in a + b;
    var bx :| bx in a && bx.budgetMinutes == x.budgetMinutes;
    var by' :| by' in b && by'.budgetMinutes == y.budgetMinutes;
    assert (if m.budgetMinutes == x.budgetMinutes then bx else by') in a + b;
  }

  lemma MergeOwned(x: Record, y: Record, a: set<Record>, b: set<Record>)
    requires Owned(x, a) && Owned(y, b)
    ensures Owned(MergeRecords(x, y), a + b)
  {
    var m := MergeRecords(x, y);
    var ex :| ex in a && ex.attempt == x.attempt && ex.SameOwner(x);
    var ey :| ey in b && ey.attempt == y.attempt && ey.SameOwner(y);
    assert (if y.attempt > x.attempt then ey else ex) in a + b;
  }

  lemma MergeFlag(x: Record, y: Record, a: set<Record>, b: set<Record>)
    requires Summarises(x, a) && Summarises(y, b)
    ensures var m := MergeRecords(x, y); if m.Flagged() then Disputed(a + b) else Agreed(m, a + b)
  {
    var m := MergeRecords(x, y);
    if x.Flagged() || y.Flagged() {
      if x.Flagged() { DisputedMore(a, a + b); } else { DisputedMore(b, a + b); }
    } else if x.attempt == y.attempt && !x.SameOwner(y) {
      var ex :| ex in a && ex.attempt == x.attempt && ex.SameOwner(x);
      var ey :| ey in b && ey.attempt == y.attempt && ey.SameOwner(y);
      assert ex in a + b && ey in a + b && !ex.SameOwner(ey);
    } else {
      assert !m.Flagged();
    }
  }

  lemma DisputedMore(a: set<Record>, b: set<Record>)
    requires a <= b && Disputed(a)
    ensures Disputed(b)
  {
  }

  lemma MergeSummarises(x: Record, y: Record, a: set<Record>, b: set<Record>)
    requires Summarises(x, a) && Summarises(y, b)
    ensures Summarises(MergeRecords(x, y), a + b)
  {
    MergeBounds(x, y, a, b);
    MergeOwned(x, y, a, b);
    MergeFlag(x, y, a, b);
  }

  lemma {:induction false} NoEntries(t: Tree, id: string)
    requires id !in Ids(t)
    ensures Entries(t, id) == {}
  {
    if t.Node? {
      NoEntries(t.destination, id);
      NoEntries(t.source, id);
    }
  }

  lemma MergeValue(to: Ledger, from: Ledger)
    requires ValidLedger(to) && ValidLedger(from)
    ensures Merge(Stored(to), Stored(from)) ==
            if |MergeMaps(to, from)| > DELEGATION_LEDGER_LIMIT then Err(LedgerFull) else Ok(MergeMaps(to, from))
  {
    ParseValid(to);
    ParseValid(from);
  }

  lemma ParseValid(l: Ledger)
    requires ValidLedger(l)
    ensures Parse(Stored(l)) == Ok(l)
  {
  }

  lemma MergedValid(to: Ledger, from: Ledger)
    requires ValidLedger(to) && ValidLedger(from) && |MergeMaps(to, from)| <= DELEGATION_LEDGER_LIMIT
    ensures ValidLedger(MergeMaps(to, from))
  {
  }

  lemma Smaller(x: set<string>, y: set<string>)
    requires x <= y
    ensures |x| <= |y|
  {
    assert y == x + (y - x);
  }

  lemma NodeIds(to: Ledger, from: Ledger, d: Tree, s: Tree)
    requires to.Keys == Ids(d) && from.Keys == Ids(s)
    ensures MergeMaps(to, from).Keys == Ids(Node(d, s))
    ensures |MergeMaps(to, from)| == |Ids(Node(d, s))|
  {
    var m := MergeMaps(to, from);
    assert |m| == |m.Keys|;
  }

  /**
   * A merge tree succeeds exactly when every ledger is well formed and their tasks together number at
   * most 256, whatever its shape and order; it then holds exactly the tasks of all ledgers.
   */
  lemma {:induction false} MergeTree(t: Tree)
    ensures Eval(t).Ok? <==> AllValid(t) && |Ids(t)| <= DELEGATION_LEDGER_LIMIT
    ensures Eval(t).Ok? ==> ValidLedger(Eval(t).value) && Eval(t).value.Keys == Ids(t)
  {
    match t
    case Leaf(l) =>
      assert |l| == |l.Keys|;
    case Node(d, s) =>
      MergeTree(d);
      MergeTree(s);
      Smaller(Ids(d), Ids(t));
      Smaller(Ids(s), Ids(t));
      if Eval(d).Ok? && Eval(s).Ok? {
        NodeIds(Eval(d).value, Eval(s).value, d, s);
        NodeMerges(d, s);
      }
  }

  lemma NodeMerges(d: Tree, s: Tree)
    requires Eval(d).Ok? && Eval(s).Ok? && ValidLedger(Eval(d).value) && ValidLedger(Eval(s).value)
    ensures var m := MergeMaps(Eval(d).value, Eval(s).value);
            && (Eval(Node(d, s)).Ok? <==> |m| <= DELEGATION_LEDGER_LIMIT)
            && (Eval(Node(d, s)).Ok? ==> Eval(Node(d, s)).value == m && ValidLedger(m))
  {
    MergeValue(Eval(d).value, Eval(s).value);
    if |MergeMaps(Eval(d).value, Eval(s).value)| <= DELEGATION_LEDGER_LIMIT {
      MergedValid(Eval(d).value, Eval(s).value);
    }
  }

  /** One task, below one merge: its record and its entries. */
  lemma NodeRecord(d: Tree, s: Tree, to: Ledger, from: Ledger, id: string)
    requires to.Keys == Ids(d) && from.Keys == Ids(s) && (id in to || id in from)
    requires id in to ==> Summarises(to[id], Entries(d, id))
    requires id in from ==> Summarises(from[id], Entries(s, id))
    ensures Summarises(MergedEntry(to, from, id), Entries(d, id) + Entries(s, id))
  {
    if id !in from {
      NoEntries(s, id);
      assert Entries(d, id) + {} == Entries(d, id);
    } else if id !in to {
      NoEntries(d, id);
      assert {} + Entries(s, id) == Entries(s, id);
    } else {
      MergeSummarises(to[id], from[id], Entries(d, id), Entries(s, id));
    }
  }

  /** The merged record of a task summarises all entries for it in all ledgers. */
  lemma {:induction false} MergeTreeRecord(t: Tree, id: string)
    requires Eval(t).Ok? && id in Ids(t)
    ensures id in Eval(t).value && Summarises(Eval(t).value[id], Entries(t, id))
  {
    MergeTree(t);
    match t
    case Leaf(l) =>
      LeafRecord(l[id]);
    case Node(d, s) =>
      MergeTree(d);
      MergeTree(s);
      var to, from := Eval(d).value, Eval(s).value;
      if id in to { MergeTreeRecord(d, id); }
      if id in from { MergeTreeRecord(s, id); }
      NodeMerges(d, s);
      NodeRecord(d, s, to, from, id);
  }

  lemma LeafRecord(r: Record)
    ensures Summarises(r, {r})
  {
    assert r in {r};
  }

  // ---------- Order independence ----------

  /** What a tree's entries and tasks are does not depend on its shape. */
  lemma {:induction false} EntriesOfLeaves(t: Tree, id: string)
    ensures forall r :: r in Entries(t, id) <==> exists l :: l in Leaves(t) && id in l && l[id] == r
    ensures id in Ids(t) <==> exists l :: l in Leaves(t) && id in l
  {
    match t
    case Leaf(l) =>
      assert l in Leaves(t);
    case Node(d, s) =>
      EntriesOfLeaves(d, id);
      EntriesOfLeaves(s, id);
      assert forall l :: l in Leaves(t) <==> l in Leaves(d) || l in Leaves(s);
  }

  lemma {:induction false} ValidLeaves(t: Tree)
    ensures AllValid(t) <==> forall l :: l in Leaves(t) ==> ValidLedger(l)
  {
    match t
    case Leaf(l) =>
      assert l in Leaves(t);
    case Node(d, s) =>
      ValidLeaves(d);
      ValidLeaves(s);
      assert forall l :: l in Leaves(t) <==> l in Leaves(d) || l in Leaves(s);
  }

  lemma SameEntries(t: Tree, t': Tree)
    requires SameLedgers(t, t')
    ensures Ids(t) == Ids(t') && (AllValid(t) <==> AllValid(t'))
    ensures forall id :: Entries(t, id) == Entries(t', id)
  {
    ValidLeaves(t);
    ValidLeaves(t');
    forall id ensures (id in Ids(t) <==> id in Ids(t')) && Entries(t, id) == Entries(t', id) {
      EntriesOfLeaves(t, id);
      EntriesOfLeaves(t', id);
    }
  }

  lemma SummaryUnique(m: Record, m': Record, es: set<Record>)
    requires Summarises(m, es) && Summarises(m', es)
    ensures m.attempt == m'.attempt && m.deadline == m'.deadline && m.budgetMinutes == m'.budgetMinutes
    ensures !m.Flagged() ==> m.SameOwner(m')
  {
  }

  /**
   * Merging the same ledgers in any shape, order and multiplicity succeeds alike and gives the same
   * tasks, attempts, deadlines and budgets; an unflagged record's owner is the owner in every order.
   */
  lemma OrderIndependent(t: Tree, t': Tree)
    requires SameLedgers(t, t')
    ensures Eval(t).Ok? <==> Eval(t').Ok?
    ensures Eval(t).Ok? ==>
              && Eval(t).value.Keys == Eval(t').value.Keys
              && forall id :: id in Eval(t).value ==>
                   var m, m' := Eval(t).value[id], Eval(t').value[id];
                   && m.attempt == m'.attempt && m.deadline == m'.deadline && m.budgetMinutes == m'.budgetMinutes
                   && (!m.Flagged() ==> m.SameOwner(m'))
  {
    MergeTree(t);
    MergeTree(t');
    SameEntries(t, t');
    if Eval(t).Ok? {
      forall id | id in Eval(t).value
        ensures var m, m' := Eval(t).value[id], Eval(t').value[id];
                && m.attempt == m'.attempt && m.deadline == m'.deadline && m.budgetMinutes == m'.budgetMinutes
                && (!m.Flagged() ==> m.SameOwner(m'))
      {
        MergeTreeRecord(t, id);
        MergeTreeRecord(t', id);
        SummaryUnique(Eval(t).value[id], Eval(t').value[id], Entries(t, id));
      }
    }
  }

  /** Merging either input into the result again changes nothing. */
  lemma MergeAbsorbs(to: Ledger, from: Ledger)
    ensures MergeMaps(MergeMaps(to, from), to) == MergeMaps(to, from)
    ensures MergeMaps(MergeMaps(to, from), from) == MergeMaps(to, from)
  {
    var m := MergeMaps(to, from);
    assert MergeMaps(m, to).Keys == m.Keys == MergeMaps(m, from).Keys;
    forall id | id in m
      ensures MergedEntry(m, to, id) == m[id] && MergedEntry(m, from, id) == m[id]
    {
      if id in to && id in from {
        RecordAbsorbs(to[id], from[id]);
      } else if id in from {
        MergeSelf(from[id]);
      } else {
        MergeSelf(to[id]);
      }
    }
  }

  lemma RecordAbsorbs(x: Record, y: Record)
    ensures MergeRecords(MergeRecords(x, y), x) == MergeRecords(x, y)
    ensures MergeRecords(MergeRecords(x, y), y) == MergeRecords(x, y)
  {
  }

  /** Two records that differ in nothing the merge takes from one side only. */
  predicate Interchangeable(x: Record, y: Record) {
    && x.SameOwner(y) && x.state == y.state && x.quotaReport == y.quotaReport && x.extra == y.extra
    && (x.conflicted == y.conflicted || x.Flagged() || y.Flagged())
  }

  /**
   * Merging the result back into an input gives the result again when that input was the destination; for
   * the source it does so exactly if the two inputs are interchangeable wherever their attempts are equal.
   */
  lemma MergeBack(to: Ledger, from: Ledger)
    ensures MergeMaps(to, MergeMaps(to, from)) == MergeMaps(to, from)
    ensures MergeMaps(from, MergeMaps(to, from)) == MergeMaps(to, from) <==>
            forall id :: id in to && id in from && to[id].attempt == from[id].attempt ==>
              Interchangeable(to[id], from[id])
  {
    var m := MergeMaps(to, from);
    assert MergeMaps(to, m).Keys == m.Keys == MergeMaps(from, m).Keys;
    forall id | id in m
      ensures MergedEntry(to, m, id) == m[id]
      ensures MergedEntry(from, m, id) == m[id] <==>
              (id in to && id in from && to[id].attempt == from[id].attempt ==> Interchangeable(to[id], from[id]))
    {
      if id in to && id in from {
        RecordBack(to[id], from[id]);
      } else if id in from {
        MergeSelf(from[id]);
      } else {
        MergeSelf(to[id]);
      }
    }
  }

  lemma MergeSelf(x: Record)
    ensures MergeRecords(x, x) == x
  {
  }

  lemma RecordBack(x: Record, y: Record)
    ensures MergeRecords(x, MergeRecords(x, y)) == MergeRecords(x, y)
    ensures MergeRecords(y, MergeRecords(x, y)) == MergeRecords(x, y) <==>
            (x.attempt == y.attempt ==> Interchangeable(x, y))
  {
  }

  // ---------- The flag ----------

  predicate AtTop(e: Record, es: set<Record>) {
    e in es && forall x :: x in es ==> x.attempt <= e.attempt
  }

  /** No entry is disputed, or one came flagged, or entries at the largest attempt disagree. */
  ghost predicate FlagFixed(es: set<Record>) {
    || !Disputed(es)
    || (exists e :: e in es && e.Flagged())
    || (exists e, e' :: AtTop(e, es) && AtTop(e', es) && !e.SameOwner(e'))
  }

  /** Then every summary of the entries carries the same flag. */
  lemma FixedFlag(m: Record, m': Record, es: set<Record>)
    requires FlagFixed(es) && Summarises(m, es) && Summarises(m', es)
    ensures m.Flagged() == m'.Flagged()
  {
    FlagForced(m, es);
    FlagForced(m', es);
  }

  lemma FlagForced(m: Record, es: set<Record>)
    requires FlagFixed(es) && Summarises(m, es)
    ensures m.Flagged() <==> Disputed(es)
  {
    if !m.Flagged() {
      var w :| w in es && w.attempt == m.attempt && w.SameOwner(m);
      forall e | AtTop(e, es) ensures e.SameOwner(m) {
        assert w.attempt <= e.attempt <= m.attempt;
      }
    }
  }

  /** Further ledgers merged into a tree, one after another. */
  function Fold(base: Tree, ls: seq<Ledger>): Tree {
    if ls == [] then base else Node(Fold(base, ls[..|ls| - 1]), Leaf(ls[|ls| - 1]))
  }

  lemma {:induction false} FoldLeaves(base: Tree, ls: seq<Ledger>)
    ensures Leaves(Fold(base, ls)) == Leaves(base) + ls
  {
    if ls == [] {
      assert Leaves(base) + ls == Leaves(base);
    } else {
      var n := |ls| - 1;
      FoldLeaves(base, ls[..n]);
      assert Leaves(base) + ls == (Leaves(base) + ls[..n]) + [ls[n]];
    }
  }

  /** One more ledger merged into a tree that succeeds. */
  lemma LastMerge(d: Tree, l: Ledger)
    requires Eval(Node(d, Leaf(l))).Ok?
    ensures Eval(d).Ok? && Eval(Node(d, Leaf(l))).value == MergeMaps(Eval(d).value, l)
  {
    MergeTree(d);
    MergeTree(Leaf(l));
    NodeMerges(d, Leaf(l));
  }

  lemma {:induction false} FoldFlagged(base: Tree, ls: seq<Ledger>, id: string)
    requires Eval(base).Ok? && id in Eval(base).value && Eval(base).value[id].Flagged()
    requires Eval(Fold(base, ls)).Ok?
    ensures id in Eval(Fold(base, ls)).value && Eval(Fold(base, ls)).value[id].Flagged()
  {
    if ls != [] {
      var n := |ls| - 1;
      LastMerge(Fold(base, ls[..n]), ls[n]);
      FoldFlagged(base, ls[..n], id);
    }
  }

  /** A record at the largest attempt stays unflagged when no other entry at that attempt disagrees with it. */
  lemma {:induction false} FoldUnflagged(base: Tree, ls: seq<Ledger>, id: string, top: Record)
    requires Eval(base).Ok? && id in Eval(base).value && Eval(base).value[id] == top && !top.Flagged()
    requires Eval(Fold(base, ls)).Ok?
    requires forall l: Ledger :: l in ls && id in l ==>
               !l[id].Flagged() && l[id].attempt <= top.attempt && (l[id].attempt == top.attempt ==> l[id].SameOwner(top))
    ensures id in Eval(Fold(base, ls)).value
    ensures var m := Eval(Fold(base, ls)).value[id];
            !m.Flagged() && m.attempt == top.attempt && m.SameOwner(top)
  {
    if ls != [] {
      var n := |ls| - 1;
      LastMerge(Fold(base, ls[..n]), ls[n]);
      FoldUnflagged(base, ls[..n], id, top);
      assert ls[n] in ls;
    }
  }

  /** Two disputing ledgers merged first, then all the others: the dispute is flagged. */
  lemma FlaggedTree(t: Tree, id: string, e: Record, e': Record) returns (t': Tree)
    requires Eval(t).Ok? && e in Entries(t, id) && e' in Entries(t, id)
    requires e.attempt == e'.attempt && !e.SameOwner(e')
    ensures SameLedgers(t, t') && Eval(t').Ok? && id in Eval(t').value && Eval(t').value[id].Flagged()
  {
    EntriesOfLeaves(t, id);
    var l :| l in Leaves(t) && id in l && l[id] == e;
    var l' :| l' in Leaves(t) && id in l' && l'[id] == e';
    var base := Node(Leaf(l), Leaf(l'));
    t' := Fold(base, Leaves(t));
    FoldLeaves(base, Leaves(t));
    assert Leaves(base) == [l] + [l'];
    OrderIndependent(t, t');
    FoldSucceeds(base, Leaves(t));
    PairFlagged(l, l', id);
    FoldFlagged(base, Leaves(t), id);
  }

  lemma PairFlagged(l: Ledger, l': Ledger, id: string)
    requires Eval(Node(Leaf(l), Leaf(l'))).Ok? && id in l && id in l'
    requires l[id].attempt == l'[id].attempt && !l[id].SameOwner(l'[id])
    ensures var m := Eval(Node(Leaf(l), Leaf(l'))).value; id in m && m[id].Flagged()
  {
    LastMerge(Leaf(l), l');
  }

  lemma {:induction false} FoldSucceeds(base: Tree, ls: seq<Ledger>)
    requires Eval(Fold(base, ls)).Ok?
    ensures Eval(base).Ok?
  {
    if ls != [] {
      LastMerge(Fold(base, ls[..|ls| - 1]), ls[|ls| - 1]);
      FoldSucceeds(base, ls[..|ls| - 1]);
    }
  }

  /** All the others merged into a ledger at the largest attempt: a dispute below it is never seen. */
  lemma UnflaggedTree(t: Tree, id: string, top: Record) returns (t': Tree)
    requires Eval(t).Ok? && AtTop(top, Entries(t, id))
    requires forall e :: e in Entries(t, id) ==> !e.Flagged() && (e.attempt == top.attempt ==> e.SameOwner(top))
    ensures SameLedgers(t, t') && Eval(t').Ok? && id in Eval(t').value && !Eval(t').value[id].Flagged()
  {
    EntriesOfLeaves(t, id);
    var l :| l in Leaves(t) && id in l && l[id] == top;
    var base := Leaf(l);
    t' := Fold(base, Leaves(t));
    FoldLeaves(base, Leaves(t));
    OrderIndependent(t, t');
    FoldSucceeds(base, Leaves(t));
    forall k | k in Leaves(t) && id in k
      ensures k[id] in Entries(t, id)
    {
    }
    FoldUnflagged(base, Leaves(t), id, top);
  }

  /**
   * Exactly when the flag does not depend on the order: for any merge tree and any of its tasks, every
   * tree over the same ledgers gives the same flag if and only if no two entries disagree about one
   * attempt, or some entry came flagged, or entries at the largest attempt disagree.
   */
  lemma ExactFlag(t: Tree, id: string)
    requires Eval(t).Ok? && id in Ids(t)
    ensures id in Eval(t).value
    ensures FlagFixed(Entries(t, id)) <==>
            forall t' :: SameLedgers(t, t') ==>
              Eval(t').Ok? && id in Eval(t').value && Eval(t').value[id].Flagged() == Eval(t).value[id].Flagged()
  {
    var es := Entries(t, id);
    MergeTreeRecord(t, id);
    if FlagFixed(es) {
      forall t' | SameLedgers(t, t')
        ensures Eval(t').Ok? && id in Eval(t').value && Eval(t').value[id].Flagged() == Eval(t).value[id].Flagged()
      {
        OrderIndependent(t, t');
        SameEntries(t, t');
        MergeTreeRecord(t', id);
        FixedFlag(Eval(t).value[id], Eval(t').value[id], es);
      }
    } else {
      var e, e' :| e in es && e' in es && e.attempt == e'.attempt && !e.SameOwner(e');
      var flagged := FlaggedTree(t, id, e, e');
      var m := Eval(t).value[id];
      var top :| top in es && top.attempt == m.attempt && top.SameOwner(m);
      assert AtTop(top, es);
      forall x | x in es && x.attempt == top.attempt ensures x.SameOwner(top) {
        assert AtTop(x, es);
      }
      var unflagged := UnflaggedTree(t, id, top);
      assert Eval(flagged).value[id].Flagged() != Eval(unflagged).value[id].Flagged();
    }
  }

  /** The flag itself does depend on the order: a conflict at attempt 1 is hidden once attempt 2 is merged in first. */
  lemma FlagDependsOnOrder() returns (t: Tree, t': Tree)
    ensures SameLedgers(t, t') && Eval(t).Ok? && Eval(t').Ok?
    ensures "task" in Eval(t).value && Eval(t).value["task"].Flagged()
    ensures "task" in Eval(t').value && !Eval(t').value["task"].Flagged()
  {
    var r1 := Record("a", 1, 0.0, 1, "d", Dispatched, None, None, map[]);
    var r2, r3 := r1.(worker := "b"), r1.(attempt := 2);
    var l1, l2, l3 := Leaf(Single(r1)), Leaf(Single(r2)), Leaf(Single(r3));
    t, t' := Node(Node(l1, l2), l3), Node(l1, Node(l2, l3));
    SingleTree(r1, r2, r3);
    SameThree(l1, l2, l3);
    HiddenConflict(r1, r2, r3);
  }

  lemma HiddenConflict(r1: Record, r2: Record, r3: Record)
    requires !r1.Flagged() && !r2.Flagged() && !r3.Flagged()
    requires r1.attempt == r2.attempt < r3.attempt && !r1.SameOwner(r2)
    ensures MergeRecords(MergeRecords(r1, r2), r3).Flagged() && !MergeRecords(r1, MergeRecords(r2, r3)).Flagged()
  {
  }

  lemma SameThree(l1: Tree, l2: Tree, l3: Tree)
    ensures SameLedgers(Node(Node(l1, l2), l3), Node(l1, Node(l2, l3)))
  {
    var t, t' := Node(Node(l1, l2), l3), Node(l1, Node(l2, l3));
    assert Leaves(t) == Leaves(Node(l1, l2)) + Leaves(l3);
    assert Leaves(t') == Leaves(l1) + Leaves(Node(l2, l3));
  }

  function Single(r: Record): Ledger {
    map["task" := r]
  }

  lemma SingleMerge(x: Record, y: Record)
    requires x.Valid() && y.Valid()
    ensures Merge(Stored(Single(x)), Stored(Single(y))) == Ok(Single(MergeRecords(x, y)))
  {
    var m := MergeMaps(Single(x), Single(y));
    assert m == Single(MergeRecords(x, y));
  }

  lemma SingleTree(r1: Record, r2: Record, r3: Record)
    requires r1.Valid() && r2.Valid() && r3.Valid()
    ensures Eval(Node(Node(Leaf(Single(r1)), Leaf(Single(r2))), Leaf(Single(r3))))
         == Ok(Single(MergeRecords(MergeRecords(r1, r2), r3)))
    ensures Eval(Node(Leaf(Single(r1)), Node(Leaf(Single(r2)), Leaf(Single(r3)))))
         == Ok(Single(MergeRecords(r1, MergeRecords(r2, r3))))
  {
    var l1, l2, l3 := Single(r1), Single(r2), Single(r3);
    SingleMerge(r1, r2);
    SingleMerge(r2, r3);
    SingleMerge(MergeRecords(r1, r2), r3);
    SingleMerge(r1, MergeRecords(r2, r3));
    assert Eval(Leaf(l1)) == Ok(l1) && Eval(Leaf(l2)) == Ok(l2) && Eval(Leaf(l3)) == Ok(l3);
    assert Eval(Node(Leaf(l1), Leaf(l2))) == Ok(Single(MergeRecords(r1, r2)));
    assert Eval(Node(Leaf(l2), Leaf(l3))) == Ok(Single(MergeRecords(r2, r3)));
  }
}
