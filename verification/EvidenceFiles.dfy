/** Evidence files (packages/repositories/src/evidence.ts and evidence-storage.ts): rows in a database, bytes in an
    object store, and no transaction spanning the two. The steps of concurrent calls interleave here as they may in
    fact, and any of them may fail or be the last its process takes. */
module EvidenceFiles {
  import opened Prelude
  import opened CaseTables

  type Bytes = seq<bv8>

  /** The storage key `organisation/evidence/version`. */
  datatype Key = Key(organisation: Id, evidence: Id, version: nat)

  datatype Availability = Pending | Available | Unavailable | Quarantined
  datatype Verification =
    | Unverified | DigestVerified | SourceVerified | ProfessionallyVerified | DisputedBytes | UnavailableBytes
    | SupersededFile
  datatype Dimension = Digest | Source | Professional

  datatype Item = Item(caseId: Id, organisation: Id, received: bool, verification: Verification, version: int,
                       current: Option<Id>)
  datatype File = File(id: Id, evidence: Id, version: nat, key: Key, digest: string, availability: Availability,
                       supersededBy: Option<Id>)

  /** What an item is created from. */
  datatype NewItem = NewItem(evidenceType: string, title: string, classification: Option<string>, acquisition: string,
                             executionId: Option<string>)

  const EVIDENCE_TYPES: set<string> :=
    {"identity_document", "correspondence", "decision_letter", "medical_report", "expert_report", "witness_statement",
     "financial_record", "employment_record", "photograph", "audio", "video", "messaging_export", "country_evidence",
     "court_document", "other"}
  const SOURCE_CLASSIFICATIONS: set<string> :=
    {"person_reported", "document_supported", "professional_confirmed", "model_inferred"}
  const ACQUISITIONS: set<string> :=
    {"client_supplied", "solicitor_supplied", "authority_supplied", "court_supplied", "system_generated",
     "model_derived", "imported", "photographed", "scanned"}

  /** `validateCreate`; model-derived material must cite the execution that produced it. */
  predicate ValidNew(form: NewItem) {
    && form.evidenceType in EVIDENCE_TYPES && !Blank(form.title)
    && (form.classification.Some? ==> form.classification.value in SOURCE_CLASSIFICATIONS)
    && form.acquisition in ACQUISITIONS
    && (form.acquisition == "model_derived" ==> form.executionId.Some? && form.executionId.value != "")
  }

  /** An upload under way. `Stored` once the bytes are written; `Failed` once the rows could not be. */
  datatype Phase = Reserved | Stored | Failed
  datatype Attach = Attach(evidence: Id, version: nat, key: Key, bytes: Bytes, expected: int, phase: Phase)

  /** A verification under way: the row has been read, and then the outcome settled. */
  datatype Check =
    | Reading(evidence: Id, expected: int, key: Key, digest: string)
    | Judged(evidence: Id, expected: int, outcome: Verification)

  /** `files` are in the order they were inserted. */
  datatype System = System(items: map<Id, Item>, files: seq<File>, store: map<Key, Bytes>, attaching: map<Id, Attach>,
                           checks: map<Id, Check>)

  const EMPTY_SYSTEM := System(map[], [], map[], map[], map[])

  datatype Operation =
    | CreateItem(actor: Actor, caseId: Id, organisation: Id, form: NewItem, id: Id)
    | BeginAttach(call: Id, actor: Actor, caseId: Id, evidence: Id, bytes: Bytes, mediaType: string, expected: int)
    | Put(call: Id, fails: bool, partial: Option<Bytes>)
    | CommitAttach(call: Id, fileId: Id, fails: bool)
    | Compensate(call: Id, fails: bool)
    | Abandon(call: Id)
    | BeginCheck(call: Id, actor: Actor, caseId: Id, evidence: Id, dimension: Dimension, expected: int)
    | ReadBytes(call: Id, fails: bool)
    | CommitCheck(call: Id, fails: bool)
    | MarkUnavailable(actor: Actor, caseId: Id, evidence: Id, reason: string, expected: int)

  // ---------- rows ----------

  /** `COALESCE(max(version), 0)` */
  function MaxVersion(files: seq<File>, evidence: Id): nat {
    if files == [] then 0
    else
      var rest, last := MaxVersion(files[..|files| - 1], evidence), files[|files| - 1];
      if last.evidence == evidence && last.version > rest then last.version else rest
  }

  function Count(files: seq<File>, evidence: Id): nat {
    if files == [] then 0 else Count(files[..|files| - 1],
                                     evidence) + if files[|files| - 1].evidence == evidence then 1 else 0
  }

  /** The last file inserted for this item. */
  function Newest(files: seq<File>, evidence: Id): Option<Id> {
    if files == [] then None
    else if files[|files| - 1].evidence == evidence then Some(files[|files| - 1].id)
    else Newest(files[..|files| - 1], evidence)
  }

  function FileById(files: seq<File>, id: Option<Id>): Option<File> {
    if files == [] || id.None? then None
    else if files[|files| - 1].id == id.value then Some(files[|files| - 1])
    else FileById(files[..|files| - 1], id)
  }

  /** The rows with one version of one item replaced by a newer file. */
  function Close(files: seq<File>, evidence: Id, version: int, newId: Id): (r: seq<File>)
    ensures |r| == |files|
    ensures forall i :: 0 <= i < |r| ==> SameRow(files[i], r[i])
  {
    seq(|files|, i requires 0 <= i < |files| =>
      if files[i].evidence == evidence && files[i].version == version
      then files[i].(supersededBy := Some(newId), availability := Unavailable) else files[i])
  }

  function Hide(files: seq<File>, id: Option<Id>): (r: seq<File>)
    ensures |r| == |files|
    ensures forall i :: 0 <= i < |r| ==> SameRow(files[i], r[i]) && r[i].supersededBy == files[i].supersededBy
  {
    seq(|files|, i requires 0 <= i < |files| =>
      if Some(files[i].id) == id then files[i].(availability := Unavailable) else files[i])
  }

  /** What is recorded of a file and never changed; an unavailable file never becomes available again. */
  predicate SameRow(a: File, b: File) {
    && a.id == b.id && a.evidence == b.evidence && a.version == b.version && a.key == b.key && a.digest == b.digest
    && (b.availability == a.availability || b.availability == Unavailable)
    && (a.supersededBy.Some? ==> b.supersededBy.Some?)
  }

  // ---------- what each step does ----------

  predicate InCase(s: System, evidence: Id, caseId: Id) {
    evidence in s.items && s.items[evidence].caseId == caseId
  }

  predicate AtVersion(s: System, evidence: Id, expected: int) {
    evidence in s.items && s.items[evidence].version == expected
  }

  predicate KnownFile(files: seq<File>, id: Id) {
    exists i :: 0 <= i < |files| && files[i].id == id
  }

  /** Why a judgement may not be recorded: nothing was ever checked, or the caller is not a professional. */
  predicate MayJudge(s: System, op: Operation)
    requires op.BeginCheck? && InCase(s, op.evidence, op.caseId)
  {
    match op.dimension
    case Digest => FileById(s.files, s.items[op.evidence].current).Some?
    case Source => s.items[op.evidence].verification != Unverified
    case Professional => s.items[op.evidence].verification != Unverified && op.actor.role in PROFESSIONAL
  }

  predicate Enabled(s: System, op: Operation) {
    match op
    case CreateItem(actor, _, _, form, id) => ValidNew(form) && MayWrite(actor) && id !in s.items
    case BeginAttach(call, actor, caseId, evidence, bytes, mediaType, _) =>
      bytes != [] && !Blank(mediaType) && MayWrite(actor) && InCase(s, evidence, caseId) && call !in s.attaching
    case Put(call, _, _) => call in s.attaching && s.attaching[call].phase == Reserved
    case CommitAttach(call, fileId, _) =>
      && call in s.attaching && s.attaching[call].phase == Stored && !KnownFile(s.files, fileId)
    case Compensate(call, _) => call in s.attaching && s.attaching[call].phase == Failed
    case Abandon(call) => call in s.attaching
    case BeginCheck(call, actor, caseId, evidence, _, _) =>
      MayWrite(actor) && InCase(s, evidence, caseId) && call !in s.checks && MayJudge(s, op)
    case ReadBytes(call, _) => call in s.checks && s.checks[call].Reading?
    case CommitCheck(call, _) => call in s.checks && s.checks[call].Judged?
    case MarkUnavailable(actor, caseId, evidence, reason, expected) =>
      !Blank(reason) && MayWrite(actor) && InCase(s, evidence, caseId) && AtVersion(s, evidence, expected)
  }

  function NewAttach(s: System, op: Operation): Attach
    requires op.BeginAttach? && Enabled(s, op)
  {
    var n := MaxVersion(s.files, op.evidence) + 1;
    Attach(op.evidence, n, Key(s.items[op.evidence].organisation, op.evidence, n), op.bytes, op.expected, Reserved)
  }

  function NewFile(sha: Bytes -> string, a: Attach, fileId: Id): File {
    File(fileId, a.evidence, a.version, a.key, sha(a.bytes), Available, None)
  }

  predicate VersionTaken(files: seq<File>, evidence: Id, version: nat) {
    exists i :: 0 <= i < |files| && files[i].evidence == evidence && files[i].version == version
  }

  /** The transaction goes through: no statement fails, the version is still free and the item is as the caller read it.
      */
  predicate Commits(s: System, op: Operation)
    requires op.CommitAttach? && Enabled(s, op)
  {
    var a := s.attaching[op.call];
    !op.fails && AtVersion(s, a.evidence, a.expected) && !VersionTaken(s.files, a.evidence, a.version)
  }

  /** The rows an upload leaves: the item points at the new file, which replaces the version before it. */
  function WithFile(sha: Bytes -> string, s: System, a: Attach, fileId: Id): System
    requires a.evidence in s.items
  {
    var item := s.items[a.evidence];
    s.(items := s.items[a.evidence := item.(current := Some(fileId), received := true, version := item.version + 1)],
       files := Close(s.files, a.evidence, a.version - 1, fileId) + [NewFile(sha, a, fileId)])
  }

  function NewCheck(s: System, op: Operation): Check
    requires op.BeginCheck? && Enabled(s, op)
  {
    match op.dimension
    case Digest =>
      var f := FileById(s.files, s.items[op.evidence].current).value;
      Reading(op.evidence, op.expected, f.key, f.digest)
    case Source => Judged(op.evidence, op.expected, SourceVerified)
    case Professional => Judged(op.evidence, op.expected, ProfessionallyVerified)
  }

  /** What recomputing the digest shows. `read` is what the store gave back, if anything. */
  function Outcome(sha: Bytes -> string, read: Option<Bytes>, digest: string): Verification {
    if read.None? then UnavailableBytes else if sha(read.value) == digest then DigestVerified else DisputedBytes
  }

  function Fetch(store: map<Key, Bytes>, key: Key, fails: bool): Option<Bytes> {
    if fails || key !in store then None else Some(store[key])
  }

  function Effect(sha: Bytes -> string, s: System, op: Operation): System
    requires Enabled(s, op)
  {
    match op
    case CreateItem(_, caseId, organisation, _, id) =>
      s.(items := s.items[id := Item(caseId, organisation, false, Unverified, 1, None)])
    case BeginAttach(call, _, _, _, _, _, _) => s.(attaching := s.attaching[call := NewAttach(s, op)])
    case Put(call, fails, partial) =>
      var a := s.attaching[call];
      if fails then s.(store := if partial.Some? then s.store[a.key := partial.value] else s.store,
                       attaching := s.attaching - {call})
      else s.(store := s.store[a.key := a.bytes], attaching := s.attaching[call := a.(phase := Stored)])
    case CommitAttach(call, fileId, _) =>
      var a := s.attaching[call];
      if Commits(s, op) then WithFile(sha, s, a, fileId).(attaching := s.attaching - {call})
      else s.(attaching := s.attaching[call := a.(phase := Failed)])
    case Compensate(call, fails) =>
      s.(store := if fails then s.store else s.store - {s.attaching[call].key}, attaching := s.attaching - {call})
    case Abandon(call) => s.(attaching := s.attaching - {call})
    case BeginCheck(call, _, _, _, _, _) => s.(checks := s.checks[call := NewCheck(s, op)])
    case ReadBytes(call, fails) =>
      var c := s.checks[call];
      s.(checks := s.checks[call := Judged(c.evidence, c.expected,
                                           Outcome(sha, Fetch(s.store, c.key, fails), c.digest))])
    case CommitCheck(call, fails) =>
      var c := s.checks[call];
      var done := s.(checks := s.checks - {call});
      if !fails && AtVersion(s, c.evidence, c.expected) then
        var item := s.items[c.evidence];
        done.(items := s.items[c.evidence := item.(verification := c.outcome, version := item.version + 1)])
      else done
    case MarkUnavailable(_, _, evidence, _, _) =>
      var item := s.items[evidence];
      s.(items := s.items[evidence := item.(verification := UnavailableBytes, version := item.version + 1)],
         files := Hide(s.files, item.current))
  }

  function Step(sha: Bytes -> string, s: System, op: Operation): System {
    if Enabled(s, op) then Effect(sha, s, op) else s
  }

  function Run(sha: Bytes -> string, s: System, ops: seq<Operation>): System
    decreases |ops|
  {
    if ops == [] then s else Run(sha, Step(sha, s, ops[0]), ops[1..])
  }

  /** The item has moved past the version the caller goes by: the transaction can no longer go through. */
  predicate Overtaken(items: map<Id, Item>, evidence: Id, expected: int) {
    evidence in items && expected < items[evidence].version
  }

  /** An upload whose rows will never be recorded. */
  predicate Doomed(items: map<Id, Item>, a: Attach) {
    a.phase == Failed || Overtaken(items, a.evidence, a.expected)
  }

  /** A second attach of an item may begin while others are under way only if none of them can record its file: the new
      one goes by a version the item has left behind, and each of the others either does too or has already failed. */
  predicate Safe(s: System, op: Operation) {
    op.BeginAttach? ==> forall c :: c in s.attaching && s.attaching[c].evidence == op.evidence ==>
      Doomed(s.items, s.attaching[c]) && Overtaken(s.items, op.evidence, op.expected)
  }

  ghost predicate AllSafe(sha: Bytes -> string, s: System, ops: seq<Operation>)
    decreases |ops|
  {
    ops == [] || (Safe(s, ops[0]) && AllSafe(sha, Step(sha, s, ops[0]), ops[1..]))
  }

  // ---------- what every state keeps ----------

  /** Each item's versions are 1, 2, 3 and so on, in the order its files were inserted. */
  ghost predicate Versioned(files: seq<File>) {
    forall i :: 0 <= i < |files| ==> NextVersion(files, i)
  }

  predicate NextVersion(files: seq<File>, i: nat)
    requires i < |files|
  {
    files[i].version == Count(files[..i], files[i].evidence) + 1
  }

  ghost predicate UniqueIds(files: seq<File>) {
    forall i, j :: 0 <= i < j < |files| ==> Differ(files, i, j)
  }

  predicate Differ(files: seq<File>, i: nat, j: nat)
    requires i < j < |files|
  {
    files[i].id != files[j].id
  }

  /** An older file is unavailable and replaced by the next version; the newest is replaced by nothing. */
  ghost predicate Linked(files: seq<File>, i: nat)
    requires i < |files|
  {
    if files[i].version < Count(files, files[i].evidence)
    then files[i].availability == Unavailable && exists j :: i < j < |files| && Succeeds(files[i], files[j])
    else files[i].supersededBy.None?
  }

  predicate Succeeds(older: File, newer: File) {
    newer.evidence == older.evidence && newer.version == older.version + 1 && older.supersededBy == Some(newer.id)
  }

  /** The stored bytes of a file are the ones whose digest it records. */
  predicate BytesMatch(sha: Bytes -> string, store: map<Key, Bytes>, f: File) {
    f.key in store && sha(store[f.key]) == f.digest
  }

  predicate Placed(items: map<Id, Item>, f: File) {
    f.evidence in items && f.key == Key(items[f.evidence].organisation, f.evidence, f.version)
  }

  predicate FileSound(sha: Bytes -> string, items: map<Id, Item>, store: map<Key, Bytes>, f: File) {
    Placed(items, f) && BytesMatch(sha, store, f)
  }

  ghost predicate FilesSound(sha: Bytes -> string, items: map<Id, Item>, files: seq<File>, store: map<Key, Bytes>) {
    forall i {:trigger FileSound(sha, items, store, files[i])} :: 0 <= i < |files| ==>
      FileSound(sha, items, store, files[i])
  }

  ghost predicate FilesLinked(files: seq<File>) {
    forall i :: 0 <= i < |files| ==> Linked(files, i)
  }

  ghost predicate ItemsSound(items: map<Id, Item>, files: seq<File>) {
    forall x :: x in items ==> items[x].current == Newest(files, x) && items[x].verification != DisputedBytes
  }

  predicate AttachSound(items: map<Id, Item>, files: seq<File>, store: map<Key, Bytes>, a: Attach) {
    && a.evidence in items && a.version == Count(files, a.evidence) + 1
    && a.key == Key(items[a.evidence].organisation, a.evidence, a.version)
    && (a.phase == Stored && !Doomed(items, a) ==> a.key in store && store[a.key] == a.bytes)
  }

  ghost predicate AttachesSound(s: System) {
    && (forall c :: c in s.attaching ==> AttachSound(s.items, s.files, s.store, s.attaching[c]))
    && (forall c, d :: c in s.attaching && d in s.attaching && c != d ==> Apart(s, c, d))
  }

  /** Two uploads under way are of different items, or neither can record its file. */
  predicate Apart(s: System, c: Id, d: Id)
    requires c in s.attaching && d in s.attaching
  {
    s.attaching[c].evidence != s.attaching[d].evidence
    || (Doomed(s.items, s.attaching[c]) && Doomed(s.items, s.attaching[d]))
  }

  ghost predicate CheckSound(files: seq<File>, c: Check) {
    match c
    case Reading(_, _, key, digest) => exists i :: 0 <= i < |files| && files[i].key == key && files[i].digest == digest
    case Judged(_, _, outcome) => outcome != DisputedBytes
  }

  ghost predicate ChecksSound(s: System) {
    forall c :: c in s.checks ==> CheckSound(s.files, s.checks[c])
  }

  /** Beyond the bytes of its files an item has at most one stored object, under the key of the version to come. */
  predicate KeyBounded(items: map<Id, Item>, files: seq<File>, k: Key) {
    && k.evidence in items && k.organisation == items[k.evidence].organisation
    && 1 <= k.version <= Count(files, k.evidence) + 1
  }

  ghost predicate StoreBounded(s: System) {
    forall k :: k in s.store ==> KeyBounded(s.items, s.files, k)
  }

  ghost predicate Inv(sha: Bytes -> string, s: System) {
    && Versioned(s.files) && UniqueIds(s.files) && FilesLinked(s.files) && FilesSound(sha, s.items, s.files, s.store)
    && ItemsSound(s.items, s.files) && AttachesSound(s) && ChecksSound(s) && StoreBounded(s)
  }

  /** What the rows alone keep, however calls overlap: the database's own constraints see to it. */
  ghost predicate RowsSound(s: System) {
    && Versioned(s.files) && UniqueIds(s.files) && FilesLinked(s.files)
    && (forall i :: 0 <= i < |s.files| ==> Placed(s.items, s.files[i]))
    && (forall x :: x in s.items ==> s.items[x].current == Newest(s.files, x))
    && (forall c :: c in s.attaching ==> AttachPlaced(s.items, s.files, s.attaching[c]))
  }

  predicate AttachPlaced(items: map<Id, Item>, files: seq<File>, a: Attach) {
    && a.evidence in items && 1 <= a.version <= Count(files, a.evidence) + 1
    && a.key == Key(items[a.evidence].organisation, a.evidence, a.version)
  }

  lemma InvRows(sha: Bytes -> string, s: System)
    requires Inv(sha, s)
    ensures RowsSound(s)
  {
    forall i | 0 <= i < |s.files|
      ensures Placed(s.items, s.files[i])
    {
      assert FileSound(sha, s.items, s.store, s.files[i]);
    }
    forall c | c in s.attaching
      ensures AttachPlaced(s.items, s.files, s.attaching[c])
    {
      assert AttachSound(s.items, s.files, s.store, s.attaching[c]);
    }
  }

  // ---------- rows: counting ----------

  lemma {:induction false} CountPrefix(files: seq<File>, i: nat, evidence: Id)
    requires i <= |files|
    ensures Count(files[..i], evidence) <= Count(files, evidence)
  {
    if i < |files| {
      var front := files[..|files| - 1];
      assert front[..i] == files[..i];
      CountPrefix(front, i, evidence);
    } else {
      assert files[..i] == files;
    }
  }

  /** No version is above the count. */
  lemma VersionBound(files: seq<File>, i: nat)
    requires Versioned(files) && i < |files|
    ensures 1 <= files[i].version <= Count(files, files[i].evidence)
  {
    assert NextVersion(files, i) && files[..i + 1][..i] == files[..i];
    CountPrefix(files, i + 1, files[i].evidence);
  }

  lemma FrontVersioned(files: seq<File>)
    requires files != [] && Versioned(files)
    ensures Versioned(files[..|files| - 1])
  {
    var front := files[..|files| - 1];
    forall i | 0 <= i < |front| ensures NextVersion(front, i) {
      assert NextVersion(files, i) && front[..i] == files[..i];
    }
  }

  lemma {:induction false} MaxIsCount(files: seq<File>, evidence: Id)
    requires Versioned(files)
    ensures MaxVersion(files, evidence) == Count(files, evidence)
  {
    if files != [] {
      var front := files[..|files| - 1];
      assert NextVersion(files, |files| - 1);
      FrontVersioned(files);
      MaxIsCount(front, evidence);
    }
  }

  /** Each version up to the count is there. */
  lemma {:induction false} EveryVersion(files: seq<File>, evidence: Id, v: nat) returns (i: nat)
    requires Versioned(files) && 1 <= v <= Count(files, evidence)
    ensures i < |files| && files[i].evidence == evidence && files[i].version == v
  {
    var n := |files| - 1;
    var front := files[..n];
    if files[n].evidence == evidence && Count(front, evidence) < v {
      assert NextVersion(files, n);
      i := n;
    } else {
      FrontVersioned(files);
      i := EveryVersion(front, evidence, v);
    }
  }

  ghost predicate SameRows(a: seq<File>, b: seq<File>) {
    |a| == |b| && forall i :: 0 <= i < |a| ==> SameRow(a[i], b[i])
  }

  lemma {:induction false} SameCount(a: seq<File>, b: seq<File>, evidence: Id)
    requires SameRows(a, b)
    ensures Count(a, evidence) == Count(b, evidence) && Newest(a, evidence) == Newest(b, evidence)
  {
    if a != [] {
      assert SameRow(a[|a| - 1], b[|b| - 1]);
      SameCount(a[..|a| - 1], b[..|b| - 1], evidence);
    }
  }

  lemma SameVersioned(a: seq<File>, b: seq<File>)
    requires SameRows(a, b) && Versioned(a) && UniqueIds(a)
    ensures Versioned(b) && UniqueIds(b)
  {
    forall i | 0 <= i < |b| ensures NextVersion(b, i) {
      assert NextVersion(a, i) && SameRow(a[i], b[i]);
      SameCount(a[..i], b[..i], b[i].evidence);
    }
    forall i, j | 0 <= i < j < |b| ensures Differ(b, i, j) {
      assert Differ(a, i, j) && SameRow(a[i], b[i]) && SameRow(a[j], b[j]);
    }
  }

  lemma SameFilesSound(sha: Bytes -> string, s: System, files: seq<File>)
    requires FilesSound(sha, s.items, s.files, s.store) && SameRows(s.files, files)
    ensures FilesSound(sha, s.items, files, s.store)
  {
    forall i | 0 <= i < |files| ensures FileSound(sha, s.items, s.store, files[i]) {
      assert SameRow(s.files[i], files[i]) && FileSound(sha, s.items, s.store, s.files[i]);
    }
  }

  lemma AppendVersioned(files: seq<File>, f: File)
    requires Versioned(files) && UniqueIds(files) && !KnownFile(files, f.id)
    requires f.version == Count(files, f.evidence) + 1
    ensures Versioned(files + [f]) && UniqueIds(files + [f])
    ensures forall x :: Count(files + [f], x) == Count(files, x) + if f.evidence == x then 1 else 0
    ensures forall x :: Newest(files + [f], x) == if f.evidence == x then Some(f.id) else Newest(files, x)
  {
    var after := files + [f];
    assert after[..|files|] == files;
    forall i | 0 <= i < |after| ensures NextVersion(after, i) {
      if i < |files| { assert NextVersion(files, i) && after[..i] == files[..i]; }
    }
    forall i, j | 0 <= i < j < |after| ensures Differ(after, i, j) {
      if j < |files| { assert Differ(files, i, j); }
    }
  }

  /** The newest file closed and the next version appended, the chain goes on. */
  lemma ExtendChain(files: seq<File>, f: File)
    requires Versioned(files) && UniqueIds(files) && FilesLinked(files) && !KnownFile(files, f.id)
    requires f.version == Count(files, f.evidence) + 1 && f.supersededBy.None?
    ensures FilesLinked(Close(files, f.evidence, f.version - 1, f.id) + [f])
  {
    var closed := Close(files, f.evidence, f.version - 1, f.id);
    var after := closed + [f];
    SameVersioned(files, closed);
    forall x ensures Count(closed, x) == Count(files, x) { SameCount(files, closed, x); }
    assert !KnownFile(closed, f.id) by {
      forall i | 0 <= i < |closed| ensures closed[i].id != f.id { assert SameRow(files[i], closed[i]); }
    }
    AppendVersioned(closed, f);
    forall i | 0 <= i < |files| ensures Linked(after, i) {
      assert Linked(files, i);
      VersionBound(files, i);
      if files[i].evidence == f.evidence && files[i].version == f.version - 1 {
        assert Succeeds(after[i], after[|files|]);
      } else if files[i].version < Count(files, files[i].evidence) {
        var j :| i < j < |files| && Succeeds(files[i], files[j]);
        assert SameRow(files[j], closed[j]);
        assert Succeeds(after[i], after[j]);
      }
    }
    assert Linked(after, |files|);
  }

  lemma HideLinked(files: seq<File>, id: Option<Id>)
    requires FilesLinked(files)
    ensures FilesLinked(Hide(files, id))
  {
    var after := Hide(files, id);
    forall x ensures Count(after, x) == Count(files, x) { SameCount(files, after, x); }
    forall i | 0 <= i < |after| ensures Linked(after, i) {
      assert Linked(files, i);
      if files[i].version < Count(files, files[i].evidence) {
        var j :| i < j < |files| && Succeeds(files[i], files[j]);
        assert Succeeds(after[i], after[j]);
      }
    }
  }

  // ---------- what every step keeps ----------

  ghost predicate PlacesKept(before: map<Id, Item>, after: map<Id, Item>) {
    forall x :: x in before ==>
      x in after && after[x].organisation == before[x].organisation && before[x].version <= after[x].version
  }

  lemma FilesStaySound(sha: Bytes -> string, items: map<Id, Item>, after: map<Id, Item>, files: seq<File>,
                       store: map<Key, Bytes>)
    requires FilesSound(sha, items, files, store) && PlacesKept(items, after)
    ensures FilesSound(sha, after, files, store)
  {
    forall i | 0 <= i < |files|
      ensures FileSound(sha, after, store, files[i])
    {
      assert FileSound(sha, items, store, files[i]);
    }
  }

  /** The uploads still under way are of items whose files did not change. */
  lemma AttachesStaySound(s: System, after: System)
    requires AttachesSound(s) && PlacesKept(s.items, after.items) && after.store == s.store
    requires forall c :: c in after.attaching ==> c in s.attaching && after.attaching[c] == s.attaching[c]
    requires forall c :: c in after.attaching ==>
      Count(after.files, s.attaching[c].evidence) == Count(s.files, s.attaching[c].evidence)
    ensures AttachesSound(after)
  {
    forall c | c in after.attaching ensures AttachSound(after.items, after.files, after.store, after.attaching[c]) {
      assert AttachSound(s.items, s.files, s.store, s.attaching[c]);
    }
    forall c, d | c in after.attaching && d in after.attaching && c != d ensures Apart(after, c, d) {
      assert Apart(s, c, d);
    }
  }

  lemma StoreStaysBounded(s: System, after: System)
    requires StoreBounded(s) && PlacesKept(s.items, after.items) && after.store == s.store
    requires forall x :: Count(s.files, x) <= Count(after.files, x)
    ensures StoreBounded(after)
  {
    forall k | k in after.store
      ensures KeyBounded(after.items, after.files, k)
    {
      assert KeyBounded(s.items, s.files, k);
    }
  }

  /** Where no row and no stored object changes, only the calls under way need looking at. */
  lemma ItemKeepsInv(sha: Bytes -> string, s: System, id: Id, item: Item)
    requires Inv(sha, s) && item.current == Newest(s.files, id) && item.verification != DisputedBytes
    requires id in s.items ==> item.organisation == s.items[id].organisation && s.items[id].version <= item.version
    ensures Inv(sha, s.(items := s.items[id := item]))
  {
    var after := s.(items := s.items[id := item]);
    FilesStaySound(sha, s.items, after.items, s.files, s.store);
    AttachesStaySound(s, after);
    StoreStaysBounded(s, after);
  }

  lemma {:induction false} NoFiles(files: seq<File>, evidence: Id)
    requires forall i :: 0 <= i < |files| ==> files[i].evidence != evidence
    ensures Newest(files, evidence) == None && Count(files, evidence) == 0
  {
    if files != [] { NoFiles(files[..|files| - 1], evidence); }
  }

  lemma CreateItemKeepsInv(sha: Bytes -> string, s: System, op: Operation)
    requires Inv(sha, s) && op.CreateItem? && Enabled(s, op)
    ensures Inv(sha, Effect(sha, s, op))
  {
    forall i | 0 <= i < |s.files|
      ensures s.files[i].evidence != op.id
    {
      assert FileSound(sha, s.items, s.store, s.files[i]);
    }
    NoFiles(s.files, op.id);
    ItemKeepsInv(sha, s, op.id, Item(op.caseId, op.organisation, false, Unverified, 1, None));
  }

  lemma BeginKeepsInv(sha: Bytes -> string, s: System, op: Operation)
    requires Inv(sha, s) && op.BeginAttach? && Enabled(s, op) && Safe(s, op)
    ensures Inv(sha, Effect(sha, s, op))
  {
    MaxIsCount(s.files, op.evidence);
    var after := Effect(sha, s, op);
    forall c | c in after.attaching ensures AttachSound(after.items, after.files, after.store, after.attaching[c]) {
      if c in s.attaching { assert AttachSound(s.items, s.files, s.store, s.attaching[c]); }
    }
    forall c, d | c in after.attaching && d in after.attaching && c != d ensures Apart(after, c, d) {
      if c in s.attaching && d in s.attaching { assert Apart(s, c, d); }
    }
  }

  /** An upload under way writes under a key no file refers to. */
  lemma KeyFree(sha: Bytes -> string, s: System, call: Id)
    requires Inv(sha, s) && call in s.attaching
    ensures forall i :: 0 <= i < |s.files| ==> s.files[i].key != s.attaching[call].key
    ensures forall c :: c in s.attaching && c != call && s.attaching[c].key == s.attaching[call].key ==>
      Doomed(s.items, s.attaching[c])
    ensures KeyBounded(s.items, s.files, s.attaching[call].key)
  {
    assert AttachSound(s.items, s.files, s.store, s.attaching[call]);
    forall i | 0 <= i < |s.files| ensures s.files[i].key != s.attaching[call].key {
      assert FileSound(sha, s.items, s.store, s.files[i]);
      VersionBound(s.files, i);
    }
    forall c | c in s.attaching && c != call && s.attaching[c].key == s.attaching[call].key
      ensures Doomed(s.items, s.attaching[c])
    {
      assert AttachSound(s.items, s.files, s.store, s.attaching[c]) && Apart(s, c, call);
    }
  }

  /** Whatever becomes of the object under that key, and of the upload, the rest stands. */
  lemma UploadKeepsInv(sha: Bytes -> string, s: System, call: Id, after: System)
    requires Inv(sha, s) && call in s.attaching
    requires after == s.(store := after.store, attaching := after.attaching)
    requires forall k :: k != s.attaching[call].key ==>
      (k in after.store <==> k in s.store) && (k in s.store ==> after.store[k] == s.store[k])
    requires forall c :: c != call ==>
      (c in after.attaching <==> c in s.attaching) && (c in s.attaching ==> after.attaching[c] == s.attaching[c])
    requires call in after.attaching ==> AttachSound(after.items, after.files, after.store, after.attaching[call])
    requires call in after.attaching ==> after.attaching[call].evidence == s.attaching[call].evidence
    requires call in after.attaching && Doomed(s.items, s.attaching[call]) ==> Doomed(s.items, after.attaching[call])
    ensures Inv(sha, after)
  {
    KeyFree(sha, s, call);
    forall i | 0 <= i < |s.files|
      ensures FileSound(sha, after.items, after.store, after.files[i])
    {
      assert FileSound(sha, s.items, s.store, s.files[i]);
    }
    forall c | c in after.attaching ensures AttachSound(after.items, after.files, after.store, after.attaching[c]) {
      if c != call { assert AttachSound(s.items, s.files, s.store, s.attaching[c]); }
    }
    forall c, d | c in after.attaching && d in after.attaching && c != d ensures Apart(after, c, d) {
      assert Apart(s, c, d);
    }
    forall k | k in after.store ensures KeyBounded(s.items, s.files, k) {
      if k != s.attaching[call].key { assert KeyBounded(s.items, s.files, k); }
    }
  }

  lemma PutKeepsInv(sha: Bytes -> string, s: System, op: Operation)
    requires Inv(sha, s) && Enabled(s, op) && op.Put?
    ensures Inv(sha, Effect(sha, s, op))
  {
    assert AttachSound(s.items, s.files, s.store, s.attaching[op.call]);
    UploadKeepsInv(sha, s, op.call, Effect(sha, s, op));
  }

  lemma UploadEndKeepsInv(sha: Bytes -> string, s: System, op: Operation)
    requires Inv(sha, s) && Enabled(s, op)
    requires op.Compensate? || op.Abandon? || (op.CommitAttach? && !Commits(s, op))
    ensures Inv(sha, Effect(sha, s, op))
  {
    assert AttachSound(s.items, s.files, s.store, s.attaching[op.call]);
    UploadKeepsInv(sha, s, op.call, Effect(sha, s, op));
  }

  lemma CommitEffect(sha: Bytes -> string, s: System, op: Operation)
    requires op.CommitAttach? && Enabled(s, op) && Commits(s, op)
    ensures Effect(sha, s, op) == WithFile(sha, s, s.attaching[op.call],
                                           op.fileId).(attaching := s.attaching - {op.call})
  {
  }

  lemma CommitKeepsInv(sha: Bytes -> string, s: System, op: Operation)
    requires Inv(sha, s) && op.CommitAttach? && Enabled(s, op) && Commits(s, op)
    ensures Inv(sha, Effect(sha, s, op))
  {
    var a := s.attaching[op.call];
    assert AttachSound(s.items, s.files, s.store, a);
    CommitEffect(sha, s, op);
    UploadRecorded(sha, s, op.call, op.fileId);
  }

  lemma UploadRecorded(sha: Bytes -> string, s: System, call: Id, fileId: Id)
    requires Inv(sha, s) && call in s.attaching && AttachSound(s.items, s.files, s.store, s.attaching[call])
    requires s.attaching[call].phase == Stored && !Doomed(s.items, s.attaching[call]) && !KnownFile(s.files, fileId)
    ensures Inv(sha, WithFile(sha, s, s.attaching[call], fileId).(attaching := s.attaching - {call}))
  {
    var a := s.attaching[call];
    var item := s.items[a.evidence];
    FileAdded(sha, s, call, NewFile(sha, a, fileId),
              item.(current := Some(fileId), received := true, version := item.version + 1),
              WithFile(sha, s, a, fileId).(attaching := s.attaching - {call}));
  }

  lemma FileAdded(sha: Bytes -> string, s: System, call: Id, f: File, item: Item, after: System)
    requires Inv(sha, s) && call in s.attaching && f.evidence == s.attaching[call].evidence && f.evidence in s.items
    requires !KnownFile(s.files, f.id) && f.version == Count(s.files, f.evidence) + 1 && f.supersededBy.None?
    requires FileSound(sha, s.items, s.store, f)
    requires item.organisation == s.items[f.evidence].organisation && item.current == Some(f.id)
    requires s.items[f.evidence].version <= item.version && !Doomed(s.items, s.attaching[call])
    requires item.verification == s.items[f.evidence].verification
    requires after == s.(items := s.items[f.evidence := item],
                         files := Close(s.files, f.evidence, f.version - 1,
                                        f.id) + [f], attaching := s.attaching - {call})
    ensures Inv(sha, after)
  {
    var closed := Close(s.files, f.evidence, f.version - 1, f.id);
    CommitRows(s.files, closed, f);
    CommitFiles(sha, s, closed, f, after);
    CallsUnharmed(s, call, f, after);
  }

  /** What the other calls under way, and the store, make of one more file. */
  lemma CallsUnharmed(s: System, call: Id, f: File, after: System)
    requires AttachesSound(s) && ChecksSound(s) && StoreBounded(s)
    requires call in s.attaching && f.evidence == s.attaching[call].evidence && !Doomed(s.items, s.attaching[call])
    requires PlacesKept(s.items, after.items) && after.store == s.store && after.checks == s.checks
    requires after.attaching == s.attaching - {call}
    requires |s.files| <= |after.files| && forall i :: 0 <= i < |s.files| ==> SameRow(s.files[i], after.files[i])
    requires forall x :: Count(after.files, x) == Count(s.files, x) + if f.evidence == x then 1 else 0
    ensures AttachesSound(after) && ChecksSound(after) && StoreBounded(after)
  {
    forall c | c in after.attaching
      ensures s.attaching[c].evidence != f.evidence
    {
      assert Apart(s, c, call);
    }
    AttachesStaySound(s, after);
    forall c | c in after.checks
      ensures CheckSound(after.files, after.checks[c])
    {
      CheckStaysSound(s.files, after.files, s.checks[c]);
    }
    StoreStaysBounded(s, after);
  }

  lemma CommitRows(files: seq<File>, closed: seq<File>, f: File)
    requires Versioned(files) && UniqueIds(files) && FilesLinked(files) && !KnownFile(files, f.id)
    requires f.version == Count(files, f.evidence) + 1 && f.supersededBy.None?
    requires closed == Close(files, f.evidence, f.version - 1, f.id)
    ensures Versioned(closed + [f]) && UniqueIds(closed + [f]) && FilesLinked(closed + [f])
    ensures forall x :: Count(closed + [f], x) == Count(files, x) + if f.evidence == x then 1 else 0
    ensures forall x :: Newest(closed + [f], x) == if f.evidence == x then Some(f.id) else Newest(files, x)
  {
    SameVersioned(files, closed);
    forall x
      ensures Count(closed, x) == Count(files, x) && Newest(closed, x) == Newest(files, x)
    {
      SameCount(files, closed, x);
    }
    assert !KnownFile(closed, f.id) by {
      forall i | 0 <= i < |closed| ensures closed[i].id != f.id { assert SameRow(files[i], closed[i]); }
    }
    AppendVersioned(closed, f);
    ExtendChain(files, f);
  }

  lemma CommitFiles(sha: Bytes -> string, s: System, closed: seq<File>, f: File, after: System)
    requires FilesSound(sha, s.items, s.files, s.store) && SameRows(s.files, closed) && after.files == closed + [f]
    requires after.store == s.store
    requires PlacesKept(s.items, after.items)
    requires Placed(after.items, f) && BytesMatch(sha, after.store, f)
    ensures FilesSound(sha, after.items, after.files, after.store)
  {
    forall i | 0 <= i < |after.files| ensures FileSound(sha, after.items, after.store, after.files[i]) {
      if i < |s.files| { assert SameRow(s.files[i], closed[i]) && FileSound(sha, s.items, s.store, s.files[i]); }
    }
  }

  lemma CheckStaysSound(files: seq<File>, after: seq<File>, c: Check)
    requires CheckSound(files, c) && |files| <= |after| && forall i :: 0 <= i < |files| ==> SameRow(files[i], after[i])
    ensures CheckSound(after, c)
  {
    if c.Reading? {
      var i :| 0 <= i < |files| && files[i].key == c.key && files[i].digest == c.digest;
      assert SameRow(files[i], after[i]);
    }
  }

  lemma {:induction false} FileByIdStored(files: seq<File>, id: Option<Id>)
    ensures FileById(files, id).Some? ==>
      exists i :: 0 <= i < |files| && files[i] == FileById(files, id).value && Some(files[i].id) == id
  {
    if files != [] && id.Some? && files[|files| - 1].id != id.value {
      FileByIdStored(files[..|files| - 1], id);
    }
  }

  lemma BeginCheckKeepsInv(sha: Bytes -> string, s: System, op: Operation)
    requires Inv(sha, s) && op.BeginCheck? && Enabled(s, op)
    ensures Inv(sha, Effect(sha, s, op))
  {
    FileByIdStored(s.files, s.items[op.evidence].current);
    assert CheckSound(s.files, NewCheck(s, op));
  }

  /** A digest recomputed from stored bytes always matches; only a failed read leaves another outcome. */
  lemma ReadMatches(sha: Bytes -> string, s: System, call: Id, fails: bool)
    requires Inv(sha, s) && call in s.checks && s.checks[call].Reading?
    ensures var c := s.checks[call];
      Outcome(sha, Fetch(s.store, c.key, fails), c.digest) == if fails then UnavailableBytes else DigestVerified
  {
    var c := s.checks[call];
    assert CheckSound(s.files, c);
    var i :| 0 <= i < |s.files| && s.files[i].key == c.key && s.files[i].digest == c.digest;
    assert FileSound(sha, s.items, s.store, s.files[i]);
  }

  lemma MarkKeepsInv(sha: Bytes -> string, s: System, op: Operation)
    requires Inv(sha, s) && op.MarkUnavailable? && Enabled(s, op)
    ensures Inv(sha, Effect(sha, s, op))
  {
    var item := s.items[op.evidence];
    var hidden := Hide(s.files, item.current);
    HideKeepsInv(sha, s, hidden, item.current);
    SameCount(s.files, hidden, op.evidence);
    ItemKeepsInv(sha, s.(files := hidden), op.evidence,
                 item.(verification := UnavailableBytes, version := item.version + 1));
  }

  lemma HideKeepsInv(sha: Bytes -> string, s: System, hidden: seq<File>, id: Option<Id>)
    requires Inv(sha, s) && hidden == Hide(s.files, id)
    ensures Inv(sha, s.(files := hidden))
  {
    var after := s.(files := hidden);
    SameVersioned(s.files, hidden);
    HideLinked(s.files, id);
    SameFilesSound(sha, s, hidden);
    forall x
      ensures Count(hidden, x) == Count(s.files, x) && Newest(hidden, x) == Newest(s.files, x)
    {
      SameCount(s.files, hidden, x);
    }
    AttachesStaySound(s, after);
    forall c | c in s.checks ensures CheckSound(hidden, s.checks[c]) { CheckStaysSound(s.files, hidden, s.checks[c]); }
    StoreStaysBounded(s, after);
  }

  lemma CommitCheckKeepsInv(sha: Bytes -> string, s: System, op: Operation)
    requires Inv(sha, s) && op.CommitCheck? && Enabled(s, op)
    ensures Inv(sha, Effect(sha, s, op))
  {
    var c := s.checks[op.call];
    var done := s.(checks := s.checks - {op.call});
    assert CheckSound(s.files, c);
    assert Inv(sha, done);
    if !op.fails && AtVersion(s, c.evidence, c.expected) {
      var item := s.items[c.evidence];
      ItemKeepsInv(sha, done, c.evidence, item.(verification := c.outcome, version := item.version + 1));
    }
  }

  lemma ReadKeepsInv(sha: Bytes -> string, s: System, op: Operation)
    requires Inv(sha, s) && op.ReadBytes? && Enabled(s, op)
    ensures Inv(sha, Effect(sha, s, op))
  {
    ReadMatches(sha, s, op.call, op.fails);
  }

  lemma StepKeepsInv(sha: Bytes -> string, s: System, op: Operation)
    requires Inv(sha, s) && Safe(s, op)
    ensures Inv(sha, Step(sha, s, op))
  {
    if Enabled(s, op) {
      match op {
        case CreateItem(_, _, _, _, _) => CreateItemKeepsInv(sha, s, op);
        case BeginAttach(_, _, _, _, _, _, _) => BeginKeepsInv(sha, s, op);
        case CommitAttach(_, _, _) =>
          if Commits(s, op) { CommitKeepsInv(sha, s, op); } else { UploadEndKeepsInv(sha, s, op); }
        case BeginCheck(_, _, _, _, _, _) => BeginCheckKeepsInv(sha, s, op);
        case ReadBytes(_, _) => ReadKeepsInv(sha, s, op);
        case CommitCheck(_, _) => CommitCheckKeepsInv(sha, s, op);
        case MarkUnavailable(_, _, _, _, _) => MarkKeepsInv(sha, s, op);
        case Put(_, _, _) => PutKeepsInv(sha, s, op);
        case _ => UploadEndKeepsInv(sha, s, op);
      }
    }
  }

  // ---------- every run ----------

  /** The rows inserted stay, and so do the very bytes stored for them. */
  ghost predicate Follows(before: System, after: System) {
    |before.files| <= |after.files| && forall i :: 0 <= i < |before.files| ==> Kept(before, after, i)
  }

  predicate Kept(before: System, after: System, i: nat)
    requires i < |before.files| && i < |after.files|
  {
    var key := before.files[i].key;
    && SameRow(before.files[i], after.files[i]) && key in before.store && key in after.store
    && after.store[key] == before.store[key]
  }

  lemma FollowsTrans(a: System, b: System, c: System)
    requires Follows(a, b) && Follows(b, c)
    ensures Follows(a, c)
  {
    forall i | 0 <= i < |a.files| ensures Kept(a, c, i) { assert Kept(a, b, i) && Kept(b, c, i); }
  }

  lemma StepFollows(sha: Bytes -> string, s: System, op: Operation)
    requires Inv(sha, s)
    ensures Follows(s, Step(sha, s, op))
  {
    if Enabled(s, op) {
      if op.Put? || op.Compensate? {
        KeyFree(sha, s, op.call);
        StoreFollows(sha, s, s.attaching[op.call].key, Effect(sha, s, op));
      } else {
        EffectOnRows(sha, s, op);
        RowsFollow(sha, s, Effect(sha, s, op));
      }
    } else {
      RowsFollow(sha, s, s);
    }
  }

  lemma EffectOnRows(sha: Bytes -> string, s: System, op: Operation)
    requires Enabled(s, op) && !op.Put? && !op.Compensate?
    ensures var after := Effect(sha, s, op);
      && after.store == s.store && |s.files| <= |after.files|
      && forall i :: 0 <= i < |s.files| ==> SameRow(s.files[i], after.files[i])
  {
  }

  lemma StoreFollows(sha: Bytes -> string, s: System, key: Key, after: System)
    requires FilesSound(sha, s.items, s.files, s.store) && after.files == s.files
    requires forall i :: 0 <= i < |s.files| ==> s.files[i].key != key
    requires forall k :: k in s.store && k != key ==> k in after.store && after.store[k] == s.store[k]
    ensures Follows(s, after)
  {
    forall i | 0 <= i < |s.files| ensures Kept(s, after, i) { assert FileSound(sha, s.items, s.store, s.files[i]); }
  }

  lemma RowsFollow(sha: Bytes -> string, s: System, after: System)
    requires FilesSound(sha, s.items, s.files, s.store) && after.store == s.store
    requires |s.files| <= |after.files| && forall i :: 0 <= i < |s.files| ==> SameRow(s.files[i], after.files[i])
    ensures Follows(s, after)
  {
    forall i | 0 <= i < |s.files| ensures Kept(s, after, i) { assert FileSound(sha, s.items, s.store, s.files[i]); }
  }

  lemma {:induction false} RunKeeps(sha: Bytes -> string, s: System, ops: seq<Operation>)
    requires Inv(sha, s) && AllSafe(sha, s, ops)
    ensures Inv(sha, Run(sha, s, ops)) && Follows(s, Run(sha, s, ops))
    decreases |ops|
  {
    if ops == [] {
      RowsFollow(sha, s, s);
    } else {
      var next := Step(sha, s, ops[0]);
      StepKeepsInv(sha, s, ops[0]);
      StepFollows(sha, s, ops[0]);
      RunKeeps(sha, next, ops[1..]);
      FollowsTrans(s, next, Run(sha, next, ops[1..]));
    }
  }

  // ---------- what a reader may rely on ----------

  lemma {:induction false} NewestIs(files: seq<File>, evidence: Id)
    requires Versioned(files)
    ensures Newest(files, evidence).None? <==> Count(files, evidence) == 0
    ensures Newest(files, evidence).Some? ==> exists i ::
      0 <= i < |files| && files[i].evidence == evidence && files[i].version == Count(files, evidence)
      && Newest(files, evidence) == Some(files[i].id)
  {
    if files != [] {
      assert NextVersion(files, |files| - 1);
      if files[|files| - 1].evidence != evidence {
        FrontVersioned(files);
        NewestIs(files[..|files| - 1], evidence);
      }
    }
  }

  lemma {:induction false} FileByIdExact(files: seq<File>, i: nat)
    requires UniqueIds(files) && i < |files|
    ensures FileById(files, Some(files[i].id)) == Some(files[i])
  {
    var n := |files| - 1;
    if i < n {
      assert Differ(files, i, n);
      assert UniqueIds(files[..n]) by {
        forall j, k | 0 <= j < k < n ensures Differ(files[..n], j, k) { assert Differ(files, j, k); }
      }
      FileByIdExact(files[..n], i);
    }
  }

  /** What `#hydrate` reports: the item's current file, if there is one, is available. */
  predicate ReportedAvailable(s: System, evidence: Id)
    requires evidence in s.items
  {
    var f := FileById(s.files, s.items[evidence].current);
    f.Some? && f.value.availability == Available
  }

  /** The current file of an item is its newest version. */
  lemma CurrentIsNewest(s: System, evidence: Id)
    requires RowsSound(s) && evidence in s.items
    ensures var f := FileById(s.files, s.items[evidence].current);
      && (f.Some? <==> Count(s.files, evidence) > 0)
      && (f.Some? ==> f.value in s.files && f.value.evidence == evidence && f.value.version == Count(s.files, evidence))
  {
    NewestIs(s.files, evidence);
    if Count(s.files, evidence) > 0 {
      var i :| 0 <= i < |s.files| && s.files[i].evidence == evidence && s.files[i].version == Count(s.files, evidence)
               && Newest(s.files, evidence) == Some(s.files[i].id);
      FileByIdExact(s.files, i);
    }
  }

  /** No two files of an item share a version. */
  lemma VersionOnce(files: seq<File>, i: nat, j: nat)
    requires Versioned(files) && i < j < |files| && files[i].evidence == files[j].evidence
    ensures files[i].version < files[j].version
  {
    assert NextVersion(files, i) && NextVersion(files, j) && files[..j][..i] == files[..i];
    assert files[..i + 1][..i] == files[..i] && files[..j][..i + 1] == files[..i + 1];
    CountPrefix(files[..j], i + 1, files[i].evidence);
  }

  /** An item is reported available exactly when one of its files is, and that file's stored bytes are the recorded
      ones. */
  lemma AvailableExactly(sha: Bytes -> string, s: System, evidence: Id)
    requires Inv(sha, s) && evidence in s.items
    ensures ReportedAvailable(s, evidence) <==>
      exists i :: 0 <= i < |s.files| && s.files[i].evidence == evidence && s.files[i].availability == Available
    ensures ReportedAvailable(s, evidence) ==>
      BytesMatch(sha, s.store, FileById(s.files, s.items[evidence].current).value)
  {
    InvRows(sha, s);
    CurrentIsNewest(s, evidence);
    var current := FileById(s.files, s.items[evidence].current);
    if i :| 0 <= i < |s.files| && s.files[i].evidence == evidence && s.files[i].availability == Available {
      assert Linked(s.files, i);
      VersionBound(s.files, i);
      var j :| 0 <= j < |s.files| && s.files[j] == current.value;
      if i < j { VersionOnce(s.files, i, j); } else if j < i { VersionOnce(s.files, j, i); }
    }
    if current.Some? {
      var j :| 0 <= j < |s.files| && s.files[j] == current.value;
      assert FileSound(sha, s.items, s.store, s.files[j]);
    }
  }

  /** Failed clean-ups cost at most one object an item: two stored objects no file refers to are the same object. */
  lemma OneOrphan(sha: Bytes -> string, s: System, k: Key, l: Key)
    requires Inv(sha, s) && k in s.store && l in s.store && k.evidence == l.evidence
    requires forall i :: 0 <= i < |s.files| ==> s.files[i].key != k && s.files[i].key != l
    ensures k == l
  {
    OrphanVersion(sha, s, k);
    OrphanVersion(sha, s, l);
  }

  lemma OrphanVersion(sha: Bytes -> string, s: System, k: Key)
    requires Inv(sha, s) && k in s.store && forall i :: 0 <= i < |s.files| ==> s.files[i].key != k
    ensures k.evidence in s.items
    ensures k == Key(s.items[k.evidence].organisation, k.evidence, Count(s.files, k.evidence) + 1)
  {
    assert KeyBounded(s.items, s.files, k);
    if k.version <= Count(s.files, k.evidence) { KeyReferenced(sha, s, k); }
  }

  lemma KeyReferenced(sha: Bytes -> string, s: System, k: Key)
    requires Inv(sha, s) && KeyBounded(s.items, s.files, k) && k.version <= Count(s.files, k.evidence)
    ensures exists i :: 0 <= i < |s.files| && s.files[i].key == k
  {
    var i := EveryVersion(s.files, k.evidence, k.version);
    assert FileSound(sha, s.items, s.store, s.files[i]);
  }

  lemma RunStep(sha: Bytes -> string, s: System, op: Operation, rest: seq<Operation>)
    ensures Run(sha, s, [op] + rest) == Run(sha, Step(sha, s, op), rest)
  {
    assert ([op] + rest)[1..] == rest;
  }

  lemma {:induction false} RunConcat(sha: Bytes -> string, s: System, a: seq<Operation>, b: seq<Operation>)
    ensures Run(sha, s, a + b) == Run(sha, Run(sha, s, a), b)
    decreases |a|
  {
    if a == [] {
      assert a + b == b;
    } else {
      assert (a + b)[1..] == a[1..] + b;
      RunConcat(sha, Step(sha, s, a[0]), a[1..], b);
    }
  }

  /** A digest check of an item that has a file, the read succeeding, records `digest_verified`. */
  lemma CheckVerifies(sha: Bytes -> string, s: System, call: Id, actor: Actor, caseId: Id, evidence: Id)
    requires Inv(sha, s) && MayWrite(actor) && InCase(s, evidence, caseId) && call !in s.checks
    requires Count(s.files, evidence) > 0
    ensures var after := Run(sha, s,
                             CheckCall(call, actor, caseId, evidence, Digest, s.items[evidence].version, false, false));
      evidence in after.items && after.items[evidence].verification == DigestVerified && after.files == s.files
  {
    InvRows(sha, s);
    CurrentIsNewest(s, evidence);
    var begin := BeginCheck(call, actor, caseId, evidence, Digest, s.items[evidence].version);
    RunCheck(sha, s, begin, false, false);
    CurrentMatches(sha, s, evidence);
  }

  lemma CurrentMatches(sha: Bytes -> string, s: System, evidence: Id)
    requires Inv(sha, s) && evidence in s.items && Count(s.files, evidence) > 0
    ensures var f := FileById(s.files, s.items[evidence].current); f.Some? && BytesMatch(sha, s.store, f.value)
  {
    InvRows(sha, s);
    CurrentIsNewest(s, evidence);
    var f := FileById(s.files, s.items[evidence].current).value;
    var i :| 0 <= i < |s.files| && s.files[i] == f;
    assert FileSound(sha, s.items, s.store, s.files[i]);
  }

  // ---------- the repository ----------

  /** The steps of one verification. */
  function CheckCall(call: Id, actor: Actor, caseId: Id, evidence: Id, dimension: Dimension, expected: int,
                     readFails: bool, commitFails: bool): seq<Operation>
  {
    [BeginCheck(call, actor, caseId, evidence, dimension, expected), ReadBytes(call, readFails),
     CommitCheck(call, commitFails)]
  }

  /** What a whole attach comes to when nothing happens in between. */
  function WholeAttach(sha: Bytes -> string, s: System, a: Attach, put: Operation, commit: Operation,
                       compensate: Operation): System
    requires put.Put? && commit.CommitAttach? && compensate.Compensate? && a.evidence in s.items
  {
    var stored := s.store[a.key := a.bytes];
    if put.fails then s.(store := if put.partial.Some? then s.store[a.key := put.partial.value] else s.store)
    else if !commit.fails && AtVersion(s, a.evidence, a.expected) && !VersionTaken(s.files, a.evidence, a.version)
    then WithFile(sha, s.(store := stored), a, commit.fileId)
    else s.(store := if compensate.fails then stored else stored - {a.key})
  }

  lemma RunAttach(sha: Bytes -> string, s: System, begin: Operation, put: Operation, commit: Operation,
                  compensate: Operation)
    requires begin.BeginAttach? && put.Put? && commit.CommitAttach? && compensate.Compensate?
    requires put.call == begin.call && commit.call == begin.call && compensate.call == begin.call
    requires begin.call !in s.attaching
    requires !KnownFile(s.files, commit.fileId)
    ensures Run(sha, s, [begin, put, commit, compensate])
         == if Enabled(s, begin) then WholeAttach(sha, s, NewAttach(s, begin), put, commit, compensate) else s
  {
    assert [begin, put, commit, compensate] == [begin] + [put, commit, compensate];
    RunStep(sha, s, begin, [put, commit, compensate]);
    if !Enabled(s, begin) {
      Idle(sha, s, [put, commit, compensate]);
    } else {
      var a := NewAttach(s, begin);
      RunBegun(sha, s, a, s.(attaching := s.attaching[begin.call := a]), put, commit, compensate);
    }
  }

  lemma {:induction false} Idle(sha: Bytes -> string, s: System, ops: seq<Operation>)
    requires forall i :: 0 <= i < |ops| ==> !Enabled(s, ops[i])
    ensures Run(sha, s, ops) == s
    decreases |ops|
  {
    if ops != [] { Idle(sha, s, ops[1..]); }
  }

  lemma RunBegun(sha: Bytes -> string, s: System, a: Attach, begun: System, put: Operation, commit: Operation,
                 compensate: Operation)
    requires put.Put? && commit.CommitAttach? && compensate.Compensate?
    requires commit.call == put.call && compensate.call == put.call && put.call !in s.attaching
    requires !KnownFile(s.files, commit.fileId) && a.phase == Reserved && a.evidence in s.items
    requires begun == s.(attaching := s.attaching[put.call := a])
    ensures Run(sha, begun, [put, commit, compensate]) == WholeAttach(sha, s, a, put, commit, compensate)
  {
    assert [put, commit, compensate] == [put] + [commit, compensate];
    RunStep(sha, begun, put, [commit, compensate]);
    if put.fails {
      var after := s.(store := if put.partial.Some? then s.store[a.key := put.partial.value] else s.store);
      assert begun.attaching - {put.call} == s.attaching;
      Idle(sha, after, [commit, compensate]);
    } else {
      var stored := s.(store := s.store[a.key := a.bytes], attaching := s.attaching[put.call := a.(phase := Stored)]);
      assert begun.attaching[put.call := a.(phase := Stored)] == stored.attaching;
      StoredEnds(sha, s, a, stored, put, commit, compensate);
    }
  }

  lemma StoredEnds(sha: Bytes -> string, s: System, a: Attach, stored: System, put: Operation, commit: Operation,
                   compensate: Operation)
    requires put.Put? && commit.CommitAttach? && compensate.Compensate? && !put.fails
    requires commit.call == put.call && compensate.call == put.call && put.call !in s.attaching
    requires !KnownFile(s.files, commit.fileId) && a.evidence in s.items
    requires stored == s.(store := s.store[a.key := a.bytes],
                          attaching := s.attaching[put.call := a.(phase := Stored)])
    ensures Run(sha, stored, [commit, compensate]) == WholeAttach(sha, s, a, put, commit, compensate)
  {
    assert stored.attaching[put.call] == a.(phase := Stored);
    CompensateEnds(sha, s, stored, put.call, commit, compensate);
    SameUpload(sha, s.(store := stored.store), a, commit.fileId);
  }

  lemma SameUpload(sha: Bytes -> string, s: System, a: Attach, fileId: Id)
    requires a.evidence in s.items
    ensures WithFile(sha, s, a.(phase := Stored), fileId) == WithFile(sha, s, a, fileId)
  {
  }

  lemma CompensateEnds(sha: Bytes -> string, s: System, stored: System, call: Id, commit: Operation,
                       compensate: Operation)
    requires call !in s.attaching && call in stored.attaching
    requires stored.attaching == s.attaching[call := stored.attaching[call]]
    requires stored == s.(store := stored.store, attaching := stored.attaching)
    requires commit.CommitAttach? && compensate.Compensate? && commit.call == call && compensate.call == call
    requires Enabled(stored, commit)
    ensures var after := Run(sha, stored, [commit, compensate]);
      if Commits(stored, commit)
      then after == WithFile(sha, s.(store := stored.store), stored.attaching[call], commit.fileId)
      else after == s.(store := if compensate.fails then stored.store else stored.store - {stored.attaching[call].key})
  {
    assert [commit, compensate] == [commit] + [compensate] && [compensate] == [compensate] + [];
    RunStep(sha, stored, commit, [compensate]);
    RunStep(sha, Step(sha, stored, commit), compensate, []);
    assert Effect(sha, stored, commit).attaching - {call} == s.attaching;
  }

  /** What a verification finds. */
  function Finding(sha: Bytes -> string, s: System, begin: Operation, readFails: bool): Verification
    requires begin.BeginCheck? && Enabled(s, begin)
  {
    match NewCheck(s, begin)
    case Reading(_, _, key, digest) => Outcome(sha, Fetch(s.store, key, readFails), digest)
    case Judged(_, _, outcome) => outcome
  }

  /** What a whole verification comes to when nothing happens in between. */
  function WholeCheck(s: System, evidence: Id, expected: int, finding: Verification, commitFails: bool): System {
    if commitFails || !AtVersion(s, evidence, expected) then s
    else s.(items := s.items[evidence := s.items[evidence].(
      verification := finding, version := s.items[evidence].version + 1)])
  }

  lemma RunCheck(sha: Bytes -> string, s: System, begin: Operation, readFails: bool, commitFails: bool)
    requires begin.BeginCheck? && begin.call !in s.checks
    ensures Run(sha, s, [begin, ReadBytes(begin.call, readFails), CommitCheck(begin.call, commitFails)])
         == if Enabled(s, begin)
            then WholeCheck(s, begin.evidence, begin.expected, Finding(sha, s, begin, readFails), commitFails)
            else s
  {
    var read, commit := ReadBytes(begin.call, readFails), CommitCheck(begin.call, commitFails);
    assert [begin, read, commit] == [begin] + [read, commit];
    RunStep(sha, s, begin, [read, commit]);
    if Enabled(s, begin) {
      var c := NewCheck(s, begin);
      RunSettled(sha, s, begin.call, c, Finding(sha, s, begin, readFails), s.(checks := s.checks[begin.call := c]),
                 read, commit);
    } else {
      Idle(sha, s, [read, commit]);
    }
  }

  lemma RunSettled(sha: Bytes -> string, s: System, call: Id, c: Check, finding: Verification, begun: System,
                   read: Operation, commit: Operation)
    requires read.ReadBytes? && commit.CommitCheck? && read.call == call && commit.call == call && call !in s.checks
    requires begun == s.(checks := s.checks[call := c])
    requires finding == if c.Reading? then Outcome(sha, Fetch(s.store, c.key, read.fails), c.digest) else c.outcome
    ensures Run(sha, begun, [read, commit]) == WholeCheck(s, c.evidence, c.expected, finding, commit.fails)
  {
    assert [read, commit] == [read] + [commit] && [commit] == [commit] + [];
    RunStep(sha, begun, read, [commit]);
    if c.Reading? {
      assert begun.checks[call := Judged(c.evidence, c.expected, finding)]
          == s.checks[call := Judged(c.evidence, c.expected, finding)];
    }
    RunStep(sha, Step(sha, begun, read), commit, []);
    CommitSettled(sha, s, call, Judged(c.evidence, c.expected, finding), commit);
  }

  lemma CommitSettled(sha: Bytes -> string, s: System, call: Id, c: Check, commit: Operation)
    requires commit.CommitCheck? && commit.call == call && call !in s.checks && c.Judged?
    ensures Step(sha, s.(checks := s.checks[call := c]), commit)
         == WholeCheck(s, c.evidence, c.expected, c.outcome, commit.fails)
  {
    assert s.checks[call := c] - {call} == s.checks;
  }

  /** Where its attach is safe to begin, a whole attach keeps what every state keeps. */
  lemma RunAttachKeeps(sha: Bytes -> string, s: System, ops: seq<Operation>)
    requires Inv(sha, s) && |ops| == 4 && Safe(s, ops[0]) && !ops[1].BeginAttach? && !ops[2].BeginAttach?
    requires !ops[3].BeginAttach?
    ensures Inv(sha, Run(sha, s, ops)) && Follows(s, Run(sha, s, ops))
  {
    assert AllSafe(sha, s, ops) by {
      var s1 := Step(sha, s, ops[0]);
      var s2 := Step(sha, s1, ops[1]);
      var s3 := Step(sha, s2, ops[2]);
      assert ops[1..][1..] == ops[2..] && ops[2..][1..] == ops[3..] && ops[3..][1..] == [];
      assert AllSafe(sha, Step(sha, s3, ops[3]), []);
      assert AllSafe(sha, s3, ops[3..]);
      assert AllSafe(sha, s2, ops[2..]);
      assert AllSafe(sha, s1, ops[1..]);
    }
    RunKeeps(sha, s, ops);
  }

  // ---------- which answer a call gets ----------

  /** Why an item is not created, in the order the checks are made, when no statement fails. */
  function CreateRefusal(s: System, actor: Actor, form: NewItem, newId: Id): Option<Refusal> {
    if !ValidNew(form) then Some(Invalid)
    else if !MayWrite(actor) then Some(RefusalFor(actor))
    else if newId in s.items then Some(Unreachable)
    else None
  }

  function AttachRefusal(s: System, actor: Actor, caseId: Id, evidence: Id, bytes: Bytes, mediaType: string,
                         expected: int): Option<Refusal>
  {
    if bytes == [] || Blank(mediaType) then Some(Invalid)
    else if !MayWrite(actor) then Some(RefusalFor(actor))
    else if !InCase(s, evidence, caseId) then Some(NotPersisted)
    else if !AtVersion(s, evidence, expected) then Some(Conflict)
    else None
  }

  function VerifyRefusal(s: System, actor: Actor, caseId: Id, evidence: Id, dimension: Dimension, expected: int):
    Option<Refusal>
  {
    if !MayWrite(actor) then Some(RefusalFor(actor))
    else if !InCase(s, evidence, caseId) then Some(NotPersisted)
    else if dimension == Digest && FileById(s.files, s.items[evidence].current).None? then Some(Conflict)
    else if dimension != Digest && s.items[evidence].verification == Unverified then Some(Conflict)
    else if dimension == Professional && actor.role !in PROFESSIONAL then Some(Forbidden)
    else if !AtVersion(s, evidence, expected) then Some(Conflict)
    else None
  }

  function MarkRefusal(s: System, actor: Actor, caseId: Id, evidence: Id, reason: string,
                       expected: int): Option<Refusal> {
    if Blank(reason) then Some(Invalid)
    else if !MayWrite(actor) then Some(RefusalFor(actor))
    else if !InCase(s, evidence, caseId) || !AtVersion(s, evidence, expected) then Some(Conflict)
    else None
  }

  /** A call is refused exactly when its first step is not enabled or its version is not the item's. */
  lemma RefusedExactly(s: System, op: Operation)
    ensures op.CreateItem? ==> (CreateRefusal(s, op.actor, op.form, op.id).None? <==> Enabled(s, op))
    ensures op.BeginAttach? && op.call !in s.attaching ==>
      (AttachRefusal(s, op.actor, op.caseId, op.evidence, op.bytes, op.mediaType, op.expected).None?
       <==> Enabled(s, op) && AtVersion(s, op.evidence, op.expected))
    ensures op.BeginCheck? && op.call !in s.checks ==>
      (VerifyRefusal(s, op.actor, op.caseId, op.evidence, op.dimension, op.expected).None?
       <==> Enabled(s, op) && AtVersion(s, op.evidence, op.expected))
    ensures op.MarkUnavailable? ==>
      (MarkRefusal(s, op.actor, op.caseId, op.evidence, op.reason, op.expected).None? <==> Enabled(s, op))
  {
  }

  /** What somebody who may not write is told does not depend on what is recorded: to an outsider it is as if what they
      ask for did not exist, and a member is told so. */
  lemma HiddenAlike(s: System, t: System, op: Operation)
    requires op.CreateItem? || op.BeginAttach? || op.BeginCheck? || op.MarkUnavailable?
    requires !Writer(op.actor)
    ensures var told := Some(if op.actor.belongs then Forbidden else NotPersisted);
      && (op.CreateItem? ==>
            CreateRefusal(s, op.actor, op.form, op.id) == CreateRefusal(t, op.actor, op.form, op.id)
            && CreateRefusal(s, op.actor, op.form, op.id) in {Some(Invalid), told})
      && (op.BeginAttach? ==>
            AttachRefusal(s, op.actor, op.caseId, op.evidence, op.bytes, op.mediaType, op.expected)
            == AttachRefusal(t, op.actor, op.caseId, op.evidence, op.bytes, op.mediaType, op.expected)
            && AttachRefusal(s, op.actor, op.caseId, op.evidence, op.bytes, op.mediaType, op.expected)
               in {Some(Invalid), told})
      && (op.BeginCheck? ==>
            VerifyRefusal(s, op.actor, op.caseId, op.evidence, op.dimension, op.expected)
            == VerifyRefusal(t, op.actor, op.caseId, op.evidence, op.dimension, op.expected) == told)
      && (op.MarkUnavailable? ==>
            MarkRefusal(s, op.actor, op.caseId, op.evidence, op.reason, op.expected)
            == MarkRefusal(t, op.actor, op.caseId, op.evidence, op.reason, op.expected)
            && MarkRefusal(s, op.actor, op.caseId, op.evidence, op.reason, op.expected) in {Some(Invalid), told})
  {
  }

  /** To a writer whose call makes sense: what is not in the case might as well not exist, an item read at another
      version is a conflict, and so is judging one that was never looked at, which only a professional may do
      professionally. */
  lemma ToldExactly(s: System, op: Operation)
    requires op.BeginAttach? || op.BeginCheck? || op.MarkUnavailable?
    requires Writer(op.actor)
    requires op.BeginAttach? ==> op.bytes != [] && !Blank(op.mediaType)
    requires op.MarkUnavailable? ==> !Blank(op.reason)
    ensures var here := op.evidence in s.items && s.items[op.evidence].caseId == op.caseId;
      var current := here && s.items[op.evidence].version == op.expected;
      && (op.BeginAttach? ==>
            AttachRefusal(s, op.actor, op.caseId, op.evidence, op.bytes, op.mediaType, op.expected)
            == if !here then Some(NotPersisted) else if !current then Some(Conflict) else None)
      && (op.MarkUnavailable? ==>
            MarkRefusal(s, op.actor, op.caseId, op.evidence, op.reason, op.expected)
            == if !current then Some(Conflict) else None)
      && (op.BeginCheck? && op.dimension != Digest ==>
            VerifyRefusal(s, op.actor, op.caseId, op.evidence, op.dimension, op.expected)
            == if !here then Some(NotPersisted)
               else if s.items[op.evidence].verification == Unverified then Some(Conflict)
               else if op.dimension == Professional && op.actor.role !in {Solicitor, Adviser} then Some(Forbidden)
               else if !current then Some(Conflict)
               else None)
  {
  }

  lemma {:induction false} AboveMax(files: seq<File>, evidence: Id, i: nat)
    requires i < |files| && files[i].evidence == evidence
    ensures files[i].version <= MaxVersion(files, evidence)
  {
    if i < |files| - 1 { AboveMax(files[..|files| - 1], evidence, i); }
  }

  lemma NextNotTaken(files: seq<File>, evidence: Id)
    ensures !VersionTaken(files, evidence, MaxVersion(files, evidence) + 1)
  {
    forall i | 0 <= i < |files| && files[i].evidence == evidence
      ensures files[i].version <= MaxVersion(files, evidence)
    {
      AboveMax(files, evidence, i);
    }
  }

  /** Of a known type, titled, obtained in a known way, classified in a known way if at all, and with the execution that
      derived it if a model did. */
  predicate Acceptable(form: NewItem) {
    && form.evidenceType in EVIDENCE_TYPES && (exists i :: 0 <= i < |form.title| && !IsSpace(form.title[i]))
    && form.acquisition in ACQUISITIONS
    && (form.classification.None? || form.classification.value in SOURCE_CLASSIFICATIONS)
    && (form.acquisition != "model_derived" || (form.executionId.Some? && |form.executionId.value| > 0))
  }

  /** A file was added: the version after the item's highest, under its own key, current on the item, whose version
      rises; the version before it is closed in its favour; and no other row has changed. */
  ghost predicate Attached(before: System, after: System, evidence: Id, f: File) {
    && evidence in before.items && f.evidence == evidence
    && f.key == Key(before.items[evidence].organisation, evidence, f.version)
    && (forall i :: 0 <= i < |before.files| && before.files[i].evidence == evidence ==>
          before.files[i].version < f.version)
    && (f.version == 1
        || exists i :: 0 <= i < |before.files| && before.files[i].evidence == evidence
             && before.files[i].version == f.version - 1)
    && |after.files| == |before.files| + 1 && after.files[|before.files|] == f
    && (forall i :: 0 <= i < |before.files| ==>
          after.files[i] == if before.files[i].evidence == evidence && before.files[i].version == f.version - 1
                            then before.files[i].(supersededBy := Some(f.id), availability := Unavailable)
                            else before.files[i])
    && after.items == before.items[evidence := before.items[evidence].(
         current := Some(f.id), received := true, version := before.items[evidence].version + 1)]
  }

  lemma {:induction false} MaxExactly(files: seq<File>, evidence: Id)
    ensures forall i :: 0 <= i < |files| && files[i].evidence == evidence ==>
      files[i].version <= MaxVersion(files, evidence)
    ensures MaxVersion(files, evidence) == 0
         || exists i :: 0 <= i < |files| && files[i].evidence == evidence
              && files[i].version == MaxVersion(files, evidence)
  {
    if files != [] {
      var n := |files| - 1;
      MaxExactly(files[..n], evidence);
      if MaxVersion(files, evidence) > 0 {
        if MaxVersion(files, evidence) == MaxVersion(files[..n], evidence) {
          var i :| 0 <= i < n && files[..n][i].evidence == evidence
            && files[..n][i].version == MaxVersion(files, evidence);
          assert files[i] == files[..n][i];
        } else {
          assert files[n].evidence == evidence && files[n].version == MaxVersion(files, evidence);
        }
      }
      forall i | 0 <= i < |files| && files[i].evidence == evidence
        ensures files[i].version <= MaxVersion(files, evidence)
      {
        if i < n { assert files[..n][i] == files[i]; }
      }
    }
  }

  lemma FileAttached(sha: Bytes -> string, s: System, a: Attach, fileId: Id)
    requires a.evidence in s.items && a.version == MaxVersion(s.files, a.evidence) + 1
    requires a.key == Key(s.items[a.evidence].organisation, a.evidence, a.version)
    ensures Attached(s, WithFile(sha, s, a, fileId), a.evidence, NewFile(sha, a, fileId))
  {
    MaxExactly(s.files, a.evidence);
  }

  /** What a check may find of an item: the current file's bytes against its digest, or what is judged of it. */
  ghost predicate Found(sha: Bytes -> string, s: System, item: Item, dimension: Dimension, readFails: bool,
                        state: Verification) {
    match dimension
    case Source => state == SourceVerified
    case Professional => state == ProfessionallyVerified
    case Digest => exists f :: f in s.files && Some(f.id) == item.current && state == Shown(sha, s.store, f, readFails)
  }

  function Shown(sha: Bytes -> string, store: map<Key, Bytes>, f: File, readFails: bool): Verification {
    if readFails || f.key !in store then UnavailableBytes
    else if sha(store[f.key]) == f.digest then DigestVerified
    else DisputedBytes
  }

  lemma {:induction false} FileByIdExactly(files: seq<File>, id: Option<Id>)
    ensures FileById(files, id).Some? <==> exists f :: f in files && Some(f.id) == id
    ensures FileById(files, id).Some? ==>
      FileById(files, id).value in files && Some(FileById(files, id).value.id) == id
  {
    if files != [] {
      FileByIdExactly(files[..|files| - 1], id);
      assert files == files[..|files| - 1] + [files[|files| - 1]];
    }
  }

  /** What the method below leaves, its attach being safe to begin, keeps what every state keeps, rows and bytes. */
  lemma WholeAttachKeeps(sha: Bytes -> string, s: System, begin: Operation, put: Operation, commit: Operation,
                         compensate: Operation)
    requires Inv(sha, s) && begin.BeginAttach? && Safe(s, begin) && Enabled(s, begin)
    requires put.Put? && commit.CommitAttach? && compensate.Compensate?
    requires put.call == begin.call && commit.call == begin.call && compensate.call == begin.call
    requires !KnownFile(s.files, commit.fileId)
    ensures var after := WholeAttach(sha, s, NewAttach(s, begin), put, commit, compensate);
      Inv(sha, after) && Follows(s, after)
  {
    RunAttach(sha, s, begin, put, commit, compensate);
    RunAttachKeeps(sha, s, [begin, put, commit, compensate]);
  }

  class EvidenceRepository {
    var system: System

    constructor ()
      ensures system == EMPTY_SYSTEM
    {
      system := EMPTY_SYSTEM;
    }

    method CreateEvidenceItem(sha: Bytes -> string, actor: Actor, caseId: Id, organisation: Id, form: NewItem,
                              newId: Id,
                              fault: bool)
      returns (r: Result<Item, Refusal>)
      modifies this
      ensures r.Success? <==> !fault && CreateRefusal(old(system), actor, form, newId).None?
      ensures r.Success? <==> !fault && Writer(actor) && Acceptable(form) && newId !in old(system).items
      ensures r.Failure? ==>
        Some(r.error) == CreateRefusal(old(system), actor, form, newId) || (fault && r.error == Unreachable)
      ensures r.Success? ==>
        && Writer(actor) && newId !in old(system).items
        && r.value == Item(caseId, organisation, false, Unverified, 1, None)
        && system == old(system).(items := old(system).items[newId := r.value])
      ensures system == if r.Success?
                        then Effect(sha, old(system), CreateItem(actor, caseId, organisation, form, newId))
                        else old(system)
    {
      if !ValidNew(form) { return Failure(Invalid); }
      if !MayWrite(actor) { return Failure(RefusalFor(actor)); }
      if fault || newId in system.items { return Failure(Unreachable); }
      var item := Item(caseId, organisation, false, Unverified, 1, None);
      system := system.(items := system.items[newId := item]);
      return Success(item);
    }

    /** One whole call is its four steps with nothing in between: it records the file and its bytes, or no row at all.
        */
    method AttachFileVersion(sha: Bytes -> string, ghost call: Id, actor: Actor, caseId: Id, evidence: Id,
                             bytes: Bytes, mediaType: string, expected: int, fileId: Id,
                             putFails: bool, partial: Option<Bytes>, commitFails: bool, removeFails: bool)
      returns (r: Result<File, Refusal>)
      requires call !in system.attaching && !KnownFile(system.files, fileId)
      modifies this
      ensures var begin := BeginAttach(call, actor, caseId, evidence, bytes, mediaType, expected);
        system == if !Enabled(old(system), begin) then old(system)
                  else WholeAttach(sha, old(system), NewAttach(old(system), begin), Put(call, putFails, partial),
                                   CommitAttach(call, fileId, commitFails), Compensate(call, removeFails))
      ensures r.Success? <==>
        && !putFails && !commitFails
        && AttachRefusal(old(system), actor, caseId, evidence, bytes, mediaType, expected).None?
      ensures r.Failure? ==>
        || Some(r.error) == AttachRefusal(old(system), actor, caseId, evidence, bytes, mediaType, expected)
        || ((putFails || commitFails) && r.error == Unreachable)
      ensures r.Success? <==>
        && !putFails && !commitFails && bytes != [] && !Blank(mediaType) && Writer(actor)
        && evidence in old(system).items && old(system).items[evidence].caseId == caseId
        && old(system).items[evidence].version == expected
      ensures r.Failure? ==> system.items == old(system).items && system.files == old(system).files
      ensures r.Success? ==> Attached(old(system), system, evidence, r.value)
      ensures r.Success? ==>
        && r.value.id == fileId && r.value.availability == Available && r.value.supersededBy == None
        && r.value.digest == sha(bytes) && system.store == old(system).store[r.value.key := bytes]
    {
      if bytes == [] || Blank(mediaType) { return Failure(Invalid); }
      if !MayWrite(actor) { return Failure(RefusalFor(actor)); }
      if !InCase(system, evidence, caseId) { return Failure(NotPersisted); }
      r := Upload(sha, call, evidence, bytes, expected, fileId, putFails, partial, commitFails, removeFails);
    }

    /** Bytes first, then the rows; bytes whose rows could not be recorded are removed again. */
    method Upload(sha: Bytes -> string, ghost call: Id, evidence: Id, bytes: Bytes, expected: int, fileId: Id,
                  putFails: bool, partial: Option<Bytes>, commitFails: bool, removeFails: bool)
      returns (r: Result<File, Refusal>)
      requires evidence in system.items
      modifies this
      ensures var n := MaxVersion(old(system).files, evidence) + 1;
        system == WholeAttach(sha, old(system),
                              Attach(evidence, n, Key(old(system).items[evidence].organisation, evidence, n), bytes,
                                     expected, Reserved),
                              Put(call, putFails, partial), CommitAttach(call, fileId, commitFails),
                              Compensate(call, removeFails))
      ensures r.Success? <==> !putFails && !commitFails && old(system).items[evidence].version == expected
      ensures r.Failure? ==> r.error == if putFails || commitFails then Unreachable else Conflict
      ensures r.Failure? ==> system.items == old(system).items && system.files == old(system).files
      ensures r.Success? ==> Attached(old(system), system, evidence, r.value)
      ensures r.Success? ==>
        && r.value.id == fileId && r.value.availability == Available && r.value.supersededBy == None
        && r.value.digest == sha(bytes) && system.store == old(system).store[r.value.key := bytes]
    {
      ghost var s := system;
      var version := MaxVersion(system.files, evidence) + 1;
      var key := Key(system.items[evidence].organisation, evidence, version);
      if putFails {
        if partial.Some? { system := system.(store := system.store[key := partial.value]); }
        return Failure(Unreachable);
      }
      system := system.(store := system.store[key := bytes]);
      ghost var upload := Attach(evidence, version, key, bytes, expected, Reserved);
      r := RecordFile(sha, upload, evidence, version, key, bytes, expected, fileId, commitFails);
      FileAttached(sha, s.(store := s.store[key := bytes]), upload, fileId);
      if r.Failure? && !removeFails { system := system.(store := system.store - {key}); }
    }

    /** The transaction that records a file whose bytes are stored: its row, the closing of the one before, and the
        item's pointer and version; or nothing. */
    method RecordFile(sha: Bytes -> string, ghost upload: Attach, evidence: Id, version: nat, key: Key, bytes: Bytes,
                      expected: int, fileId: Id, commitFails: bool) returns (r: Result<File, Refusal>)
      requires evidence in system.items && version == MaxVersion(system.files, evidence) + 1
      requires key == Key(system.items[evidence].organisation, evidence, version)
      requires upload == Attach(evidence, version, key, bytes, expected, Reserved)
      modifies this
      ensures r.Success? <==> !commitFails && old(system).items[evidence].version == expected
      ensures r.Failure? ==> system == old(system) && r.error == if commitFails then Unreachable else Conflict
      ensures r.Success? ==> system == WithFile(sha, old(system), upload, fileId)
      ensures r.Success? ==> r.value == File(fileId, evidence, version, key, sha(bytes), Available, None)
      ensures !VersionTaken(old(system).files, evidence, version)
    {
      NextNotTaken(system.files, evidence);
      if commitFails || VersionTaken(system.files, evidence, version) { return Failure(Unreachable); }
      var item := system.items[evidence];
      if item.version != expected { return Failure(Conflict); }
      var file := File(fileId, evidence, version, key, sha(bytes), Available, None);
      system := system.(
        items := system.items[evidence := item.(
          current := Some(fileId), received := true, version := item.version + 1)],
        files := Close(system.files, evidence, version - 1, fileId) + [file]);
      return Success(file);
    }

    method VerifyEvidence(sha: Bytes -> string, ghost call: Id, actor: Actor, caseId: Id, evidence: Id,
                          dimension: Dimension, expected: int,
                          readFails: bool, commitFails: bool)
      returns (r: Result<Item, Refusal>)
      requires call !in system.checks
      modifies this
      ensures var begin := BeginCheck(call, actor, caseId, evidence, dimension, expected);
        system == if !Enabled(old(system), begin) then old(system)
                  else WholeCheck(old(system), evidence, expected, Finding(sha, old(system), begin, readFails),
                                  commitFails)
      ensures r.Success? <==>
        !commitFails && VerifyRefusal(old(system), actor, caseId, evidence, dimension, expected).None?
      ensures r.Failure? ==>
        || Some(r.error) == VerifyRefusal(old(system), actor, caseId, evidence, dimension, expected)
        || (commitFails && r.error == Unreachable)
      ensures r.Success? <==>
        && !commitFails && Writer(actor) && evidence in old(system).items
        && old(system).items[evidence].caseId == caseId && old(system).items[evidence].version == expected
        && match dimension
           case Digest => exists f :: f in old(system).files && Some(f.id) == old(system).items[evidence].current
           case Source => old(system).items[evidence].verification != Unverified
           case Professional =>
             old(system).items[evidence].verification != Unverified && actor.role in {Solicitor, Adviser}
      ensures r.Failure? ==> system == old(system)
      ensures r.Success? ==>
        var was := old(system).items[evidence];
        && r.value == was.(verification := r.value.verification, version := expected + 1)
        && Found(sha, old(system), was, dimension, readFails, r.value.verification)
        && system == old(system).(items := old(system).items[evidence := r.value])
    {
      if evidence in system.items { FileByIdExactly(system.files, system.items[evidence].current); }
      if !MayWrite(actor) { return Failure(RefusalFor(actor)); }
      if !InCase(system, evidence, caseId) { return Failure(NotPersisted); }
      var item := system.items[evidence];
      var state: Verification;
      if dimension == Digest {
        var file := FileById(system.files, item.current);
        if file.None? { return Failure(Conflict); }
        var read := Fetch(system.store, file.value.key, readFails);
        if read.None? { state := UnavailableBytes; }
        else { state := if sha(read.value) == file.value.digest then DigestVerified else DisputedBytes; }
      } else {
        if item.verification == Unverified { return Failure(Conflict); }
        if dimension == Professional && actor.role !in PROFESSIONAL { return Failure(Forbidden); }
        state := if dimension == Source then SourceVerified else ProfessionallyVerified;
      }
      if commitFails { return Failure(Unreachable); }
      if !AtVersion(system, evidence, expected) { return Failure(Conflict); }
      var updated := item.(verification := state, version := item.version + 1);
      system := system.(items := system.items[evidence := updated]);
      return Success(updated);
    }

    method MarkEvidenceUnavailable(sha: Bytes -> string, actor: Actor, caseId: Id, evidence: Id, reason: string,
                                   expected: int, fault: bool)
      returns (r: Result<Item, Refusal>)
      modifies this
      ensures r.Success? <==> !fault && MarkRefusal(old(system), actor, caseId, evidence, reason, expected).None?
      ensures r.Failure? ==>
        || Some(r.error) == MarkRefusal(old(system), actor, caseId, evidence, reason, expected)
        || (fault && r.error == Unreachable)
      ensures r.Success? <==>
        && !fault && !Blank(reason) && Writer(actor) && evidence in old(system).items
        && old(system).items[evidence].caseId == caseId && old(system).items[evidence].version == expected
      ensures r.Success? ==>
        var was := old(system).items[evidence];
        && r.value == was.(verification := UnavailableBytes, version := expected + 1)
        && system == old(system).(items := old(system).items[evidence := r.value], files := system.files)
        && |system.files| == |old(system).files|
        && forall i :: 0 <= i < |system.files| ==>
             system.files[i] == if Some(old(system).files[i].id) == was.current
                                then old(system).files[i].(availability := Unavailable) else old(system).files[i]
      ensures system == if r.Success?
                        then Effect(sha, old(system), MarkUnavailable(actor, caseId, evidence, reason, expected))
                        else old(system)
    {
      if Blank(reason) { return Failure(Invalid); }
      if !MayWrite(actor) { return Failure(RefusalFor(actor)); }
      if fault { return Failure(Unreachable); }
      if !InCase(system, evidence, caseId) || !AtVersion(system, evidence, expected) { return Failure(Conflict); }
      var item := system.items[evidence];
      var updated := item.(verification := UnavailableBytes, version := item.version + 1);
      system := system.(items := system.items[evidence := updated], files := Hide(system.files, item.current));
      return Success(updated);
    }
  }

  lemma EmptyInv(sha: Bytes -> string)
    ensures Inv(sha, EMPTY_SYSTEM)
  {
  }
}
