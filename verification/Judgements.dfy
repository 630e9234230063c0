/** What a judgement on evidence rests on (packages/repositories/src/evidence.ts, `verifyEvidence`): a source or
    professional judgement is meant to be of bytes whose digest was checked first. */
module Judgements {
  import opened Prelude
  import opened CaseTables
  import opened EvidenceFiles
  import opened Overlaps

  const JUDGEMENTS: set<Verification> := {SourceVerified, ProfessionallyVerified}

  // ---------- two ways of watching a run ----------

  /** Watching the bytes: the object each digest check under way compares, and the objects compared and recorded as
      matching. */
  datatype Compared = Compared(reading: map<Id, Key>, matched: set<Key>)

  /** Watching the calls only. `since`: the items a match was recorded for since their last file. `recorded`: those for
      which the check had begun since then too, the ones that have being in `begun`. */
  datatype Order = Order(begun: map<Id, Id>, since: set<Id>, recorded: set<Id>)

  datatype Ledger = Ledger(bytes: Compared, order: Order)

  const EMPTY_LEDGER := Ledger(Compared(map[], {}), Order(map[], {}, {}))

  predicate BeginsDigest(s: System, op: Operation) {
    op.BeginCheck? && op.dimension == Digest && Enabled(s, op)
  }

  predicate RecordsFile(s: System, op: Operation) {
    op.CommitAttach? && Enabled(s, op) && Commits(s, op)
  }

  predicate RecordsMatch(s: System, op: Operation) {
    op.CommitCheck? && Enabled(s, op) && !op.fails
    && AtVersion(s, s.checks[op.call].evidence, s.checks[op.call].expected)
    && s.checks[op.call].outcome == DigestVerified
  }

  function NoteBytes(s: System, w: Compared, op: Operation): Compared {
    if BeginsDigest(s, op) then w.(reading := w.reading[op.call := NewCheck(s, op).key])
    else if op.CommitCheck? && Enabled(s, op) then
      Compared(w.reading - {op.call},
               if RecordsMatch(s, op) && op.call in w.reading then w.matched + {w.reading[op.call]} else w.matched)
    else w
  }

  function NoteOrder(s: System, w: Order, op: Operation): Order {
    if BeginsDigest(s, op) then w.(begun := w.begun[op.call := op.evidence])
    else if RecordsFile(s, op) then
      var evidence := s.attaching[op.call].evidence;
      Order(map call | call in w.begun && w.begun[call] != evidence :: w.begun[call],
            w.since - {evidence}, w.recorded - {evidence})
    else if op.CommitCheck? && Enabled(s, op) then
      Order(w.begun - {op.call},
            if RecordsMatch(s, op) then w.since + {s.checks[op.call].evidence} else w.since,
            if RecordsMatch(s, op) && op.call in w.begun then w.recorded + {s.checks[op.call].evidence} else w.recorded)
    else w
  }

  function Note(s: System, l: Ledger, op: Operation): Ledger {
    Ledger(NoteBytes(s, l.bytes, op), NoteOrder(s, l.order, op))
  }

  function History(sha: Bytes -> string, s: System, l: Ledger, ops: seq<Operation>): Ledger
    decreases |ops|
  {
    if ops == [] then l else History(sha, Step(sha, s, ops[0]), Note(s, l, ops[0]), ops[1..])
  }

  /** The item's current file was itself read, found to match, and recorded as matching. */
  predicate Grounded(s: System, l: Ledger, evidence: Id)
    requires evidence in s.items
  {
    var f := FileById(s.files, s.items[evidence].current);
    f.Some? && f.value.key in l.bytes.matched
  }

  // ---------- the two agree ----------

  /** The key of the item's newest file, if it has one. */
  function NewestKey(s: System, evidence: Id): Key
    requires evidence in s.items
  {
    Key(s.items[evidence].organisation, evidence, Count(s.files, evidence))
  }

  /** A key some file of an item has. */
  predicate UsedKey(s: System, k: Key) {
    && k.evidence in s.items && k.organisation == s.items[k.evidence].organisation
    && 1 <= k.version <= Count(s.files, k.evidence)
  }

  predicate ReadingSound(s: System, l: Ledger, call: Id)
    requires call in l.bytes.reading
  {
    && call in s.checks && s.checks[call].evidence == l.bytes.reading[call].evidence
    && UsedKey(s, l.bytes.reading[call])
    && (call in l.order.begun <==> l.bytes.reading[call] == NewestKey(s, l.bytes.reading[call].evidence))
  }

  predicate BegunSound(l: Ledger, call: Id)
    requires call in l.order.begun
  {
    call in l.bytes.reading && l.order.begun[call] == l.bytes.reading[call].evidence
  }

  predicate RecordedSound(s: System, l: Ledger, evidence: Id)
    requires evidence in s.items
  {
    evidence in l.order.recorded <==> NewestKey(s, evidence) in l.bytes.matched
  }

  ghost predicate Agree(s: System, l: Ledger) {
    && (forall call :: call in l.bytes.reading ==> ReadingSound(s, l, call))
    && (forall call :: call in l.order.begun ==> BegunSound(l, call))
    && (forall k :: k in l.bytes.matched ==> UsedKey(s, k))
    && l.order.recorded <= s.items.Keys
    && (forall x :: x in s.items ==> RecordedSound(s, l, x))
  }

  lemma CurrentKey(s: System, evidence: Id)
    requires RowsSound(s) && evidence in s.items
    ensures var f := FileById(s.files, s.items[evidence].current);
      (f.Some? <==> Count(s.files, evidence) > 0) && (f.Some? ==> f.value.key == NewestKey(s, evidence))
  {
    CurrentIsNewest(s, evidence);
    var f := FileById(s.files, s.items[evidence].current);
    if f.Some? {
      var i :| 0 <= i < |s.files| && s.files[i] == f.value;
      assert Placed(s.items, s.files[i]);
    }
  }

  lemma BeginAgrees(sha: Bytes -> string, s: System, l: Ledger, op: Operation)
    requires RowsSound(s) && Agree(s, l) && BeginsDigest(s, op)
    ensures Agree(Step(sha, s, op), Note(s, l, op))
  {
    var after, noted := Step(sha, s, op), Note(s, l, op);
    CurrentKey(s, op.evidence);
    assert op.call !in l.bytes.reading;
    forall call | call in noted.bytes.reading
      ensures ReadingSound(after, noted, call)
    {
      if call != op.call { assert ReadingSound(s, l, call); }
    }
    forall call | call in noted.order.begun
      ensures BegunSound(noted, call)
    {
      if call != op.call { assert BegunSound(l, call); }
    }
    forall x | x in after.items
      ensures RecordedSound(after, noted, x)
    {
      assert RecordedSound(s, l, x);
    }
  }

  lemma WithFileCounts(sha: Bytes -> string, s: System, a: Attach, fileId: Id)
    requires RowsSound(s) && AttachPlaced(s.items, s.files, a) && !VersionTaken(s.files, a.evidence, a.version)
    requires !KnownFile(s.files, fileId)
    ensures var after := WithFile(sha, s, a, fileId);
      && after.items.Keys == s.items.Keys && after.checks == s.checks
      && (forall x :: x in s.items ==> after.items[x].organisation == s.items[x].organisation)
      && (forall x :: Count(after.files, x) == Count(s.files, x) + if x == a.evidence then 1 else 0)
  {
    FreeIsNext(s, a);
    CommitRows(s.files, Close(s.files, a.evidence, a.version - 1, fileId), NewFile(sha, a, fileId));
  }

  /** The new file's key was never compared, and no check under way is reading it. */
  lemma FileAgrees(sha: Bytes -> string, s: System, l: Ledger, op: Operation)
    requires RowsSound(s) && Agree(s, l) && RecordsFile(s, op)
    ensures Agree(Step(sha, s, op), Note(s, l, op))
  {
    assert AttachPlaced(s.items, s.files, s.attaching[op.call]);
    CommitEffect(sha, s, op);
    WithFileCounts(sha, s, s.attaching[op.call], op.fileId);
    FileSettles(s, l, s.attaching[op.call].evidence, Step(sha, s, op), NoteOrder(s, l.order, op));
  }

  lemma FileSettles(s: System, l: Ledger, evidence: Id, after: System, order: Order)
    requires Agree(s, l) && evidence in s.items && after.items.Keys == s.items.Keys && after.checks == s.checks
    requires forall x :: x in s.items ==> after.items[x].organisation == s.items[x].organisation
    requires forall x :: Count(after.files, x) == Count(s.files, x) + if x == evidence then 1 else 0
    requires order.begun == map call | call in l.order.begun && l.order.begun[call] != evidence :: l.order.begun[call]
    requires order.recorded == l.order.recorded - {evidence}
    ensures Agree(after, l.(order := order))
  {
    var noted := l.(order := order);
    forall call | call in l.bytes.reading
      ensures ReadingSound(after, noted, call)
    {
      assert ReadingSound(s, l, call);
      assert call in l.order.begun ==> BegunSound(l, call);
    }
    forall call | call in order.begun
      ensures BegunSound(noted, call)
    {
      assert BegunSound(l, call);
    }
    forall k | k in l.bytes.matched
      ensures UsedKey(after, k)
    {
      assert UsedKey(s, k);
    }
    assert !UsedKey(s, NewestKey(after, evidence));
    forall x | x in after.items
      ensures RecordedSound(after, noted, x)
    {
      assert RecordedSound(s, l, x);
    }
  }

  lemma CheckAgrees(sha: Bytes -> string, s: System, l: Ledger, op: Operation)
    requires Agree(s, l) && op.CommitCheck? && Enabled(s, op)
    ensures Agree(Step(sha, s, op), Note(s, l, op))
  {
    CheckSettles(s, l, op.call, RecordsMatch(s, op), Step(sha, s, op), Note(s, l, op));
  }

  lemma CheckSettles(s: System, l: Ledger, call: Id, matches: bool, after: System, noted: Ledger)
    requires Agree(s, l) && call in s.checks && after.files == s.files && after.checks == s.checks - {call}
    requires after.items.Keys == s.items.Keys
    requires forall x :: x in s.items ==> after.items[x].organisation == s.items[x].organisation
    requires noted.bytes.reading == l.bytes.reading - {call} && noted.order.begun == l.order.begun - {call}
    requires noted.bytes.matched
      == if matches && call in l.bytes.reading then l.bytes.matched + {l.bytes.reading[call]} else l.bytes.matched
    requires noted.order.recorded
      == if matches && call in l.order.begun then l.order.recorded + {s.checks[call].evidence} else l.order.recorded
    ensures Agree(after, noted)
  {
    assert forall x :: x in s.items ==> NewestKey(after, x) == NewestKey(s, x);
    assert call in l.bytes.reading ==> ReadingSound(s, l, call);
    assert call in l.order.begun ==> BegunSound(l, call);
    forall c | c in noted.bytes.reading
      ensures ReadingSound(after, noted, c)
    {
      assert ReadingSound(s, l, c);
    }
    forall c | c in noted.order.begun
      ensures BegunSound(noted, c)
    {
      assert BegunSound(l, c);
    }
    forall k | k in noted.bytes.matched
      ensures UsedKey(after, k)
    {
      assert k in l.bytes.matched ==> UsedKey(s, k);
    }
    forall x | x in after.items
      ensures RecordedSound(after, noted, x)
    {
      assert RecordedSound(s, l, x);
    }
  }

  /** Other steps: nothing is noted, and no file comes. */
  lemma QuietAgrees(s: System, l: Ledger, after: System)
    requires RowsSound(s) && Agree(s, l) && s.checks.Keys <= after.checks.Keys
    requires forall x :: Count(after.files, x) == Count(s.files, x)
    requires forall x :: x in s.items ==> x in after.items && after.items[x].organisation == s.items[x].organisation
    requires forall x :: x in after.items && x !in s.items ==> Count(s.files, x) == 0
    requires forall call :: call in s.checks ==> after.checks[call].evidence == s.checks[call].evidence
    ensures Agree(after, l)
  {
    forall call | call in l.bytes.reading
      ensures ReadingSound(after, l, call)
    {
      assert ReadingSound(s, l, call);
    }
    forall k | k in l.bytes.matched
      ensures UsedKey(after, k)
    {
      assert UsedKey(s, k);
    }
    forall x | x in after.items
      ensures RecordedSound(after, l, x)
    {
      assert x in s.items ==> RecordedSound(s, l, x);
    }
  }

  lemma HiddenCounts(files: seq<File>, id: Option<Id>)
    ensures forall x :: Count(Hide(files, id), x) == Count(files, x)
  {
    forall x
      ensures Count(Hide(files, id), x) == Count(files, x)
    {
      SameCount(files, Hide(files, id), x);
    }
  }

  lemma NewHasNoFiles(s: System, id: Id)
    requires RowsSound(s) && id !in s.items
    ensures Count(s.files, id) == 0
  {
    forall i | 0 <= i < |s.files|
      ensures s.files[i].evidence != id
    {
      assert Placed(s.items, s.files[i]);
    }
    NoFiles(s.files, id);
  }

  lemma QuietStep(sha: Bytes -> string, s: System, op: Operation)
    requires RowsSound(s) && !RecordsFile(s, op) && !(op.CommitCheck? && Enabled(s, op))
    ensures var after := Step(sha, s, op);
      && s.checks.Keys <= after.checks.Keys
      && (forall x :: Count(after.files, x) == Count(s.files, x))
      && (forall x :: x in s.items ==> x in after.items && after.items[x].organisation == s.items[x].organisation)
      && (forall x :: x in after.items && x !in s.items ==> Count(s.files, x) == 0)
      && (forall call :: call in s.checks ==> after.checks[call].evidence == s.checks[call].evidence)
  {
    if Enabled(s, op) && op.MarkUnavailable? {
      HiddenCounts(s.files, s.items[op.evidence].current);
    } else if Enabled(s, op) && op.CreateItem? {
      NewHasNoFiles(s, op.id);
    }
  }

  lemma StepAgrees(sha: Bytes -> string, s: System, l: Ledger, op: Operation)
    requires RowsSound(s) && Agree(s, l)
    ensures Agree(Step(sha, s, op), Note(s, l, op))
  {
    if BeginsDigest(s, op) { BeginAgrees(sha, s, l, op); }
    else if RecordsFile(s, op) { FileAgrees(sha, s, l, op); }
    else if op.CommitCheck? && Enabled(s, op) { CheckAgrees(sha, s, l, op); }
    else {
      QuietStep(sha, s, op);
      QuietAgrees(s, l, Step(sha, s, op));
    }
  }

  lemma {:induction false} RunAgrees(sha: Bytes -> string, s: System, l: Ledger, ops: seq<Operation>)
    requires RowsSound(s) && Agree(s, l)
    ensures RowsSound(Run(sha, s, ops)) && Agree(Run(sha, s, ops), History(sha, s, l, ops))
    decreases |ops|
  {
    if ops != [] {
      StepKeepsRows(sha, s, ops[0]);
      StepAgrees(sha, s, l, ops[0]);
      RunAgrees(sha, Step(sha, s, ops[0]), Note(s, l, ops[0]), ops[1..]);
    }
  }

  /** In every run, with calls interleaved in any way and any of them failing: the item's current file was compared and
      recorded as matching exactly when, since the item's last file, a digest check began and recorded
      `digest_verified`. */
  lemma GroundedExactly(sha: Bytes -> string, ops: seq<Operation>, evidence: Id)
    requires evidence in Run(sha, EMPTY_SYSTEM, ops).items
    ensures var l := History(sha, EMPTY_SYSTEM, EMPTY_LEDGER, ops);
      Grounded(Run(sha, EMPTY_SYSTEM, ops), l, evidence) <==> evidence in l.order.recorded
  {
    RunAgrees(sha, EMPTY_SYSTEM, EMPTY_LEDGER, ops);
    AgreeGrounded(Run(sha, EMPTY_SYSTEM, ops), History(sha, EMPTY_SYSTEM, EMPTY_LEDGER, ops), evidence);
  }

  lemma AgreeGrounded(s: System, l: Ledger, evidence: Id)
    requires RowsSound(s) && Agree(s, l) && evidence in s.items
    ensures Grounded(s, l, evidence) <==> evidence in l.order.recorded
  {
    CurrentKey(s, evidence);
    assert RecordedSound(s, l, evidence);
    if NewestKey(s, evidence) in l.bytes.matched { assert UsedKey(s, NewestKey(s, evidence)); }
  }

  // ---------- callers that go by a version they have seen ----------

  /** The version a check is asked for is no later than the item's. */
  predicate Seen(s: System, op: Operation) {
    op.BeginCheck? && Enabled(s, op) ==> op.expected <= s.items[op.evidence].version
  }

  ghost predicate AllSeen(sha: Bytes -> string, s: System, ops: seq<Operation>)
    decreases |ops|
  {
    ops == [] || (Seen(s, ops[0]) && AllSeen(sha, Step(sha, s, ops[0]), ops[1..]))
  }

  /** A check that could still record a match began since the item's last file. */
  predicate TimelyCheck(s: System, w: Order, call: Id)
    requires call in s.checks
  {
    var c := s.checks[call];
    && c.evidence in s.items && c.expected <= s.items[c.evidence].version
    && (call in w.begun ==> w.begun[call] == c.evidence)
    && (c.Reading? || c.outcome == DigestVerified ==> call in w.begun || c.expected < s.items[c.evidence].version)
  }

  ghost predicate Timely(s: System, w: Order) {
    && w.since == w.recorded && w.begun.Keys <= s.checks.Keys
    && forall call :: call in s.checks ==> TimelyCheck(s, w, call)
  }

  /** A check goes on, or none of them is touched: nothing gets later. */
  lemma StepTimely(sha: Bytes -> string, s: System, w: Order, op: Operation)
    requires Timely(s, w) && Seen(s, op)
    ensures Timely(Step(sha, s, op), NoteOrder(s, w, op))
  {
    if BeginsDigest(s, op) || (op.BeginCheck? && Enabled(s, op)) { BeginTimely(sha, s, w, op); }
    else if op.CommitCheck? && Enabled(s, op) { CheckTimely(sha, s, w, op); }
    else if RecordsFile(s, op) { FileTimely(sha, s, w, op); }
    else { QuietTimely(sha, s, w, op); }
  }

  lemma BeginTimely(sha: Bytes -> string, s: System, w: Order, op: Operation)
    requires Timely(s, w) && Seen(s, op) && op.BeginCheck? && Enabled(s, op)
    ensures Timely(Step(sha, s, op), NoteOrder(s, w, op))
  {
    var after, noted := Step(sha, s, op), NoteOrder(s, w, op);
    forall call | call in after.checks
      ensures TimelyCheck(after, noted, call)
    {
      if call in s.checks { assert TimelyCheck(s, w, call); }
    }
  }

  lemma CheckTimely(sha: Bytes -> string, s: System, w: Order, op: Operation)
    requires Timely(s, w) && op.CommitCheck? && Enabled(s, op)
    ensures Timely(Step(sha, s, op), NoteOrder(s, w, op))
  {
    var after, noted := Step(sha, s, op), NoteOrder(s, w, op);
    assert TimelyCheck(s, w, op.call);
    forall call | call in after.checks
      ensures TimelyCheck(after, noted, call)
    {
      assert TimelyCheck(s, w, call);
    }
  }

  lemma FileTimely(sha: Bytes -> string, s: System, w: Order, op: Operation)
    requires Timely(s, w) && RecordsFile(s, op)
    ensures Timely(Step(sha, s, op), NoteOrder(s, w, op))
  {
    var after, noted := Step(sha, s, op), NoteOrder(s, w, op);
    forall call | call in after.checks
      ensures TimelyCheck(after, noted, call)
    {
      assert TimelyCheck(s, w, call);
    }
  }

  lemma QuietTimely(sha: Bytes -> string, s: System, w: Order, op: Operation)
    requires Timely(s, w) && !RecordsFile(s, op)
    requires Enabled(s, op) ==> !op.BeginCheck? && !op.CommitCheck?
    ensures Timely(Step(sha, s, op), NoteOrder(s, w, op))
  {
    var after := Step(sha, s, op);
    assert NoteOrder(s, w, op) == w;
    forall call | call in after.checks
      ensures TimelyCheck(after, w, call)
    {
      assert TimelyCheck(s, w, call);
    }
  }

  lemma {:induction false} RunTimely(sha: Bytes -> string, s: System, l: Ledger, ops: seq<Operation>)
    requires Timely(s, l.order) && AllSeen(sha, s, ops)
    ensures Timely(Run(sha, s, ops), History(sha, s, l, ops).order)
    decreases |ops|
  {
    if ops != [] {
      StepTimely(sha, s, l.order, ops[0]);
      RunTimely(sha, Step(sha, s, ops[0]), Note(s, l, ops[0]), ops[1..]);
    }
  }

  /** Where callers go by versions they have seen, it is enough that a match was recorded since the item's last file. */
  lemma GroundedSince(sha: Bytes -> string, ops: seq<Operation>, evidence: Id)
    requires evidence in Run(sha, EMPTY_SYSTEM, ops).items && AllSeen(sha, EMPTY_SYSTEM, ops)
    ensures var l := History(sha, EMPTY_SYSTEM, EMPTY_LEDGER, ops);
      Grounded(Run(sha, EMPTY_SYSTEM, ops), l, evidence) <==> evidence in l.order.since
  {
    GroundedExactly(sha, ops, evidence);
    RunTimely(sha, EMPTY_SYSTEM, EMPTY_LEDGER, ops);
  }

  // ---------- what the code's own guard amounts to ----------

  /** What is about to be recorded is an outcome, and a judgement is of an item with one recorded already. */
  predicate JudgedSound(items: map<Id, Item>, c: Check) {
    c.Judged? ==> c.outcome != Unverified
                  && (c.outcome in JUDGEMENTS ==> c.evidence in items && items[c.evidence].verification != Unverified)
  }

  ghost predicate JudgementsSound(s: System) {
    forall c :: c in s.checks ==> JudgedSound(s.items, s.checks[c])
  }

  predicate Untouched(s: System, evidence: Id) {
    evidence in s.items ==> s.items[evidence].verification == Unverified
  }

  /** The step records the outcome of a digest check of the item, whatever it is, or marks the item unavailable. */
  predicate Touches(s: System, op: Operation, evidence: Id) {
    Enabled(s, op) &&
    match op
    case CommitCheck(call, fails) =>
      s.checks[call].evidence == evidence && !fails && AtVersion(s, evidence, s.checks[call].expected)
      && s.checks[call].outcome !in JUDGEMENTS
    case MarkUnavailable(_, _, x, _, _) => x == evidence
    case _ => false
  }

  ghost predicate EverTouched(sha: Bytes -> string, s: System, ops: seq<Operation>, evidence: Id)
    decreases |ops|
  {
    ops != [] && (Touches(s, ops[0], evidence) || EverTouched(sha, Step(sha, s, ops[0]), ops[1..], evidence))
  }

  lemma StepTouches(sha: Bytes -> string, s: System, op: Operation, evidence: Id)
    requires JudgementsSound(s)
    ensures JudgementsSound(Step(sha, s, op))
    ensures Untouched(Step(sha, s, op), evidence) <==> Untouched(s, evidence) && !Touches(s, op, evidence)
  {
    if Enabled(s, op) {
      var after := Effect(sha, s, op);
      forall c | c in after.checks
        ensures JudgedSound(after.items, after.checks[c])
      {
        if c in s.checks { assert JudgedSound(s.items, s.checks[c]); }
      }
      if op.CommitCheck? { assert JudgedSound(s.items, s.checks[op.call]); }
    }
  }

  /** An item stops being `unverified` exactly when the outcome of some digest check is recorded, a failed read
      included, or the item is marked unavailable; no judgement comes before that, and nothing undoes it. */
  lemma {:induction false} GuardExactly(sha: Bytes -> string, s: System, ops: seq<Operation>, evidence: Id)
    requires JudgementsSound(s)
    ensures Untouched(Run(sha, s, ops), evidence) <==> Untouched(s, evidence) && !EverTouched(sha, s, ops, evidence)
    decreases |ops|
  {
    if ops != [] {
      StepTouches(sha, s, ops[0], evidence);
      GuardExactly(sha, Step(sha, s, ops[0]), ops[1..], evidence);
    }
  }

  // ---------- judgements that rest on nothing ----------

  lemma HistoryStep(sha: Bytes -> string, s: System, l: Ledger, op: Operation, rest: seq<Operation>)
    ensures History(sha, s, l, [op] + rest) == History(sha, Step(sha, s, op), Note(s, l, op), rest)
  {
    assert ([op] + rest)[1..] == rest;
  }

  lemma {:induction false} HistoryConcat(sha: Bytes -> string, s: System, l: Ledger, a: seq<Operation>,
                                         b: seq<Operation>)
    ensures History(sha, s, l, a + b) == History(sha, Run(sha, s, a), History(sha, s, l, a), b)
    decreases |a|
  {
    if a == [] {
      assert a + b == b;
    } else {
      assert (a + b)[1..] == a[1..] + b;
      HistoryConcat(sha, Step(sha, s, a[0]), Note(s, l, a[0]), a[1..], b);
    }
  }

  /** The steps of one attach in which nothing fails. */
  function AttachCall(call: Id, actor: Actor, item: Item, evidence: Id, bytes: Bytes, fileId: Id): seq<Operation> {
    [BeginAttach(call, actor, item.caseId, evidence, bytes, "m", item.version),
     Put(call, false, None), CommitAttach(call, fileId, false), Compensate(call, false)]
  }

  lemma WholeAttachRecords(sha: Bytes -> string, s: System, a: Attach, put: Operation, commit: Operation,
                           compensate: Operation)
    requires put.Put? && commit.CommitAttach? && compensate.Compensate? && !put.fails && !commit.fails
    requires AtVersion(s, a.evidence, a.expected) && !VersionTaken(s.files, a.evidence, a.version)
    ensures var after, item := WholeAttach(sha, s, a, put, commit, compensate), s.items[a.evidence];
      && after.items
           == s.items[a.evidence := item.(current := Some(commit.fileId), received := true,
                                          version := item.version + 1)]
      && after.store == s.store[a.key := a.bytes] && after.checks == s.checks && after.attaching == s.attaching
  {
  }

  /** A whole attach records its file, leaves the verification state alone, and clears what is noted of the item. */
  lemma Attached(sha: Bytes -> string, s: System, l: Ledger, call: Id, actor: Actor, evidence: Id, bytes: Bytes,
                 fileId: Id)
    requires RowsSound(s) && evidence in s.items && MayWrite(actor) && bytes != []
    requires call !in s.attaching && !KnownFile(s.files, fileId)
    ensures var ops := AttachCall(call, actor, s.items[evidence], evidence, bytes, fileId);
      var after, item := Run(sha, s, ops), s.items[evidence];
      && after.items
           == s.items[evidence := item.(current := Some(fileId), received := true, version := item.version + 1)]
      && after.store == s.store[Key(item.organisation, evidence, Count(s.files, evidence) + 1) := bytes]
      && after.checks == s.checks && after.attaching == s.attaching
      && evidence !in History(sha, s, l, ops).order.recorded
      && forall c :: c in History(sha, s, l, ops).order.begun ==>
           c in l.order.begun && l.order.begun[c] != evidence
  {
    var ops := AttachCall(call, actor, s.items[evidence], evidence, bytes, fileId);
    assert !IsSpace("m"[0]);
    MaxIsCount(s.files, evidence);
    NextNotTaken(s.files, evidence);
    RunAttach(sha, s, ops[0], ops[1], ops[2], ops[3]);
    WholeAttachRecords(sha, s, NewAttach(s, ops[0]), ops[1], ops[2], ops[3]);
    AttachNoted(sha, s, l, call, actor, evidence, bytes, fileId);
  }

  lemma AttachNoted(sha: Bytes -> string, s: System, l: Ledger, call: Id, actor: Actor, evidence: Id, bytes: Bytes,
                    fileId: Id)
    requires evidence in s.items && MayWrite(actor) && bytes != [] && call !in s.attaching
    requires !KnownFile(s.files, fileId)
    requires !IsSpace("m"[0]) && !VersionTaken(s.files, evidence, MaxVersion(s.files, evidence) + 1)
    ensures var order := History(sha, s, l, AttachCall(call, actor, s.items[evidence], evidence, bytes, fileId)).order;
      evidence !in order.recorded && forall c :: c in order.begun ==> c in l.order.begun && l.order.begun[c] != evidence
  {
    var ops := AttachCall(call, actor, s.items[evidence], evidence, bytes, fileId);
    var begun := Step(sha, s, ops[0]);
    var put := Step(sha, begun, ops[1]);
    var recorded := Step(sha, put, ops[2]);
    HistoryStep(sha, s, l, ops[0], [ops[1], ops[2], ops[3]]);
    HistoryStep(sha, begun, l, ops[1], [ops[2], ops[3]]);
    assert RecordsFile(put, ops[2]);
    HistoryStep(sha, put, l, ops[2], [ops[3]]);
    HistoryStep(sha, recorded, Note(put, l, ops[2]), ops[3], []);
    assert [ops[3]] + [] == [ops[3]] && [ops[2]] + [ops[3]] == [ops[2], ops[3]];
    assert [ops[1]] + [ops[2], ops[3]] == [ops[1], ops[2], ops[3]] && [ops[0]] + [ops[1], ops[2], ops[3]] == ops;
  }

  /** A source judgement in which nothing fails is recorded as soon as the item is no longer `unverified`, and notes
      nothing. */
  lemma Judged(sha: Bytes -> string, s: System, l: Ledger, call: Id, actor: Actor, evidence: Id)
    requires evidence in s.items && s.items[evidence].verification != Unverified && MayWrite(actor) && call !in s.checks
    ensures var item := s.items[evidence];
      var ops := CheckCall(call, actor, item.caseId, evidence, Source, item.version, false, false);
      && Run(sha, s,
             ops).items == s.items[evidence := item.(verification := SourceVerified, version := item.version + 1)]
      && Run(sha, s, ops).files == s.files
      && History(sha, s, l, ops).order.recorded == l.order.recorded
  {
    var item := s.items[evidence];
    var ops := CheckCall(call, actor, item.caseId, evidence, Source, item.version, false, false);
    RunCheck(sha, s, ops[0], false, false);
    var begun := Step(sha, s, ops[0]);
    HistoryStep(sha, s, l, ops[0], [ops[1], ops[2]]);
    HistoryStep(sha, begun, l, ops[1], [ops[2]]);
    HistoryStep(sha, Step(sha, begun, ops[1]), Note(begun, l, ops[1]), ops[2], []);
    assert [ops[2]] + [] == [ops[2]] && [ops[1]] + [ops[2]] == [ops[1], ops[2]] && [ops[0]] + [ops[1], ops[2]] == ops;
  }

  /** An item that carries a judgement though its current file was never read and found to match. */
  ghost predicate JudgedOnNothing(sha: Bytes -> string, s: System, l: Ledger, ops: seq<Operation>, evidence: Id) {
    var after := Run(sha, s, ops);
    evidence in after.items && after.items[evidence].verification in JUDGEMENTS
    && !Grounded(after, History(sha, s, l, ops), evidence)
  }

  lemma Ungrounded(sha: Bytes -> string, s: System, l: Ledger, ops: seq<Operation>, evidence: Id)
    requires RowsSound(s) && Agree(s, l) && evidence in Run(sha, s, ops).items
    requires evidence !in History(sha, s, l, ops).order.recorded
    ensures !Grounded(Run(sha, s, ops), History(sha, s, l, ops), evidence)
  {
    RunAgrees(sha, s, l, ops);
    AgreeGrounded(Run(sha, s, ops), History(sha, s, l, ops), evidence);
  }

  function JudgeCall(call: Id, actor: Actor, item: Item, evidence: Id): seq<Operation> {
    CheckCall(call, actor, item.caseId, evidence, Source, item.version, false, false)
  }

  /** The code asks only that the state is no longer `unverified`: from there a judgement goes through, grounded or not.
      */
  lemma JudgedAnyway(sha: Bytes -> string, s: System, l: Ledger, opening: seq<Operation>, call: Id, actor: Actor,
                     evidence: Id)
    requires RowsSound(s) && Agree(s, l) && MayWrite(actor)
    requires var t := Run(sha, s, opening);
      evidence in t.items && t.items[evidence].verification != Unverified && call !in t.checks
    requires evidence !in History(sha, s, l, opening).order.recorded
    ensures var t := Run(sha, s, opening);
      var ops := opening + JudgeCall(call, actor, t.items[evidence], evidence);
      JudgedOnNothing(sha, s, l, ops, evidence) && Run(sha, s, ops).items[evidence].current == t.items[evidence].current
  {
    var reached, noted := Run(sha, s, opening), History(sha, s, l, opening);
    var judge := JudgeCall(call, actor, reached.items[evidence], evidence);
    Judged(sha, reached, noted, call, actor, evidence);
    RunConcat(sha, s, opening, judge);
    HistoryConcat(sha, s, l, opening, judge);
    Ungrounded(sha, s, l, opening + judge, evidence);
  }

  /** The state a first version earned is carried over to the next: attach a new file, and it can be judged at once. */
  lemma CarriedOver(sha: Bytes -> string, s: System, l: Ledger, actor: Actor, evidence: Id, bytes: Bytes, upload: Id,
                    fileId: Id, call: Id)
    requires RowsSound(s) && Agree(s, l) && evidence in s.items && s.items[evidence].verification != Unverified
    requires MayWrite(actor) && bytes != [] && upload !in s.attaching && call !in s.checks
    requires !KnownFile(s.files, fileId)
    ensures var item := s.items[evidence];
      var ops := AttachCall(upload, actor, item, evidence, bytes, fileId)
                 + JudgeCall(call, actor, item.(version := item.version + 1), evidence);
      JudgedOnNothing(sha, s, l, ops, evidence) && Run(sha, s, ops).items[evidence].current == Some(fileId)
  {
    Attached(sha, s, l, upload, actor, evidence, bytes, fileId);
    JudgedAnyway(sha, s, l, AttachCall(upload, actor, s.items[evidence], evidence, bytes, fileId), call, actor,
                 evidence);
  }

  /** Marking an item unavailable is enough: an item nobody checked, even one without a file, can then be accepted. */
  lemma UncheckedJudgement(sha: Bytes -> string, s: System, l: Ledger, actor: Actor, evidence: Id, call: Id)
    requires RowsSound(s) && Agree(s, l) && evidence in s.items && evidence !in l.order.recorded
    requires MayWrite(actor) && call !in s.checks
    ensures var item := s.items[evidence];
      var ops := [MarkUnavailable(actor, item.caseId, evidence, "r", item.version)]
                 + JudgeCall(call, actor, item.(version := item.version + 1), evidence);
      JudgedOnNothing(sha, s, l, ops, evidence)
  {
    var item := s.items[evidence];
    var mark := MarkUnavailable(actor, item.caseId, evidence, "r", item.version);
    assert !IsSpace("r"[0]);
    assert [mark] == [mark] + [];
    RunStep(sha, s, mark, []);
    HistoryStep(sha, s, l, mark, []);
    JudgedAnyway(sha, s, l, [mark], call, actor, evidence);
  }

  /** So is a digest check whose read fails: it records `unavailable`, which is not `unverified` either. */
  lemma UnreadJudgement(sha: Bytes -> string, s: System, l: Ledger, actor: Actor, evidence: Id, call: Id)
    requires RowsSound(s) && Agree(s, l) && evidence in s.items && evidence !in l.order.recorded
    requires FileById(s.files, s.items[evidence].current).Some? && MayWrite(actor) && call !in s.checks
    ensures var item := s.items[evidence];
      var ops := CheckCall(call, actor, item.caseId, evidence, Digest, item.version, true, false)
                 + JudgeCall(call, actor, item.(version := item.version + 1), evidence);
      JudgedOnNothing(sha, s, l, ops, evidence)
  {
    var item := s.items[evidence];
    Unread(sha, s, l, actor, evidence, call);
    JudgedAnyway(sha, s, l, CheckCall(call, actor, item.caseId, evidence, Digest, item.version, true, false), call,
                 actor,
                 evidence);
  }

  lemma Unread(sha: Bytes -> string, s: System, l: Ledger, actor: Actor, evidence: Id, call: Id)
    requires evidence in s.items && FileById(s.files, s.items[evidence].current).Some? && MayWrite(actor)
    requires call !in s.checks
    ensures var item := s.items[evidence];
      var ops := CheckCall(call, actor, item.caseId, evidence, Digest, item.version, true, false);
      && Run(sha, s, ops).checks == s.checks
      && Run(sha, s,
             ops).items == s.items[evidence := item.(verification := UnavailableBytes, version := item.version + 1)]
      && History(sha, s, l, ops).order.recorded == l.order.recorded
  {
    var item := s.items[evidence];
    var ops := CheckCall(call, actor, item.caseId, evidence, Digest, item.version, true, false);
    RunCheck(sha, s, ops[0], true, false);
    var begun := Step(sha, s, ops[0]);
    var read := Step(sha, begun, ops[1]);
    HistoryStep(sha, s, l, ops[0], [ops[1], ops[2]]);
    HistoryStep(sha, begun, Note(s, l, ops[0]), ops[1], [ops[2]]);
    HistoryStep(sha, read, Note(s, l, ops[0]), ops[2], []);
    assert [ops[2]] + [] == [ops[2]] && [ops[1]] + [ops[2]] == [ops[1], ops[2]] && [ops[0]] + [ops[1], ops[2]] == ops;
  }

  /** A check asked for one version ahead, with an attach in between, records a match of the file before: so that a
      match was recorded since the last file is not enough when callers may guess. */
  lemma StaleCheck(sha: Bytes -> string, s: System, l: Ledger, actor: Actor, evidence: Id, bytes: Bytes, upload: Id,
                   fileId: Id, call: Id)
    requires Inv(sha, s) && Agree(s, l) && evidence in s.items && Count(s.files, evidence) > 0
    requires MayWrite(actor) && bytes != [] && upload !in s.attaching && call !in s.checks
    requires !KnownFile(s.files, fileId)
    ensures var item := s.items[evidence];
      var ops := [BeginCheck(call, actor, item.caseId, evidence, Digest, item.version + 1)]
                 + AttachCall(upload, actor, item, evidence, bytes, fileId)
                 + [ReadBytes(call, false), CommitCheck(call, false)];
      var after, noted := Run(sha, s, ops), History(sha, s, l, ops);
      && evidence in after.items && after.items[evidence].verification == DigestVerified
      && evidence in noted.order.since && !Grounded(after, noted, evidence)
  {
    var item := s.items[evidence];
    var begin := BeginCheck(call, actor, item.caseId, evidence, Digest, item.version + 1);
    var attach := AttachCall(upload, actor, item, evidence, bytes, fileId);
    var finish := [ReadBytes(call, false), CommitCheck(call, false)];
    var begun, noted := Step(sha, s, begin), Note(s, l, begin);
    BeginsAhead(sha, s, l, begin);
    Attached(sha, begun, noted, upload, actor, evidence, bytes, fileId);
    var attached, listed := Run(sha, begun, attach), History(sha, begun, noted, attach);
    FinishStale(sha, attached, listed, call, evidence);
    InThreeParts(sha, s, l, begin, attach, finish);
    Ungrounded(sha, s, l, [begin] + attach + finish, evidence);
  }

  lemma InThreeParts(sha: Bytes -> string, s: System, l: Ledger, first: Operation, middle: seq<Operation>,
                     last: seq<Operation>)
    ensures var begun, noted, ops := Step(sha, s, first), Note(s, l, first), [first] + middle + last;
      && Run(sha, s, ops) == Run(sha, Run(sha, begun, middle), last)
      && History(sha, s, l, ops) == History(sha, Run(sha, begun, middle), History(sha, begun, noted, middle), last)
  {
    assert [first] + middle + last == [first] + (middle + last);
    RunStep(sha, s, first, middle + last);
    HistoryStep(sha, s, l, first, middle + last);
    RunConcat(sha, Step(sha, s, first), middle, last);
    HistoryConcat(sha, Step(sha, s, first), Note(s, l, first), middle, last);
  }

  lemma BeginsAhead(sha: Bytes -> string, s: System, l: Ledger, begin: Operation)
    requires Inv(sha, s) && begin.BeginCheck? && begin.dimension == Digest && MayWrite(begin.actor)
    requires InCase(s, begin.evidence, begin.caseId) && begin.call !in s.checks && Count(s.files, begin.evidence) > 0
    ensures var begun := Step(sha, s, begin);
      && RowsSound(s) && RowsSound(begun) && begun == s.(checks := begun.checks)
      && begin.call in begun.checks && begun.checks[begin.call].Reading?
      && begun.checks[begin.call].evidence == begin.evidence && begun.checks[begin.call].expected == begin.expected
      && begun.checks[begin.call].key == NewestKey(s, begin.evidence)
      && begun.checks[begin.call].key in s.store
      && sha(s.store[begun.checks[begin.call].key]) == begun.checks[begin.call].digest
      && begin.call in Note(s, l, begin).order.begun && Note(s, l, begin).order.begun[begin.call] == begin.evidence
  {
    InvRows(sha, s);
    CurrentMatches(sha, s, begin.evidence);
    CurrentKey(s, begin.evidence);
    StepKeepsRows(sha, s, begin);
  }

  lemma FinishStale(sha: Bytes -> string, s: System, l: Ledger, call: Id, evidence: Id)
    requires evidence in s.items && call in s.checks && s.checks[call].Reading? && s.checks[call].evidence == evidence
    requires s.checks[call].expected == s.items[evidence].version
    requires s.checks[call].key in s.store && sha(s.store[s.checks[call].key]) == s.checks[call].digest
    requires call !in l.order.begun && evidence !in l.order.recorded
    ensures var ops := [ReadBytes(call, false), CommitCheck(call, false)];
      var after, noted := Run(sha, s, ops), History(sha, s, l, ops);
      && evidence in after.items && after.items[evidence].verification == DigestVerified
      && evidence in noted.order.since && evidence !in noted.order.recorded
  {
    var read, commit := ReadBytes(call, false), CommitCheck(call, false);
    assert [read, commit] == [read] + [commit] && [commit] == [commit] + [];
    var settled := Step(sha, s, read);
    RunStep(sha, s, read, [commit]);
    RunStep(sha, settled, commit, []);
    HistoryStep(sha, s, l, read, [commit]);
    HistoryStep(sha, settled, l, commit, []);
  }
}
