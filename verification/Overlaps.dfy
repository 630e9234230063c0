/** Attaches of one item that overlap (packages/repositories/src/evidence.ts, `attachFileVersion`): what the rows keep
    whatever happens, and exactly which overlaps can cost a recorded file its bytes. */
module Overlaps {
  import opened Prelude
  import opened CaseTables
  import opened EvidenceFiles

  // ---------- the rows ----------

  /** Where rows keep what they record, items their file and uploads their place, the rows stay sound. */
  lemma RowsStay(s: System, after: System)
    requires RowsSound(s) && SameRows(s.files, after.files) && FilesLinked(after.files)
    requires forall x :: x in s.items ==> x in after.items && after.items[x].organisation == s.items[x].organisation
    requires forall x :: x in after.items ==> after.items[x].current == Newest(s.files, x)
    requires forall c :: c in after.attaching ==> AttachPlaced(s.items, s.files, after.attaching[c])
    ensures RowsSound(after)
  {
    SameVersioned(s.files, after.files);
    forall x
      ensures Count(after.files, x) == Count(s.files, x) && Newest(after.files, x) == Newest(s.files, x)
    {
      SameCount(s.files, after.files, x);
    }
    forall i | 0 <= i < |after.files|
      ensures Placed(after.items, after.files[i])
    {
      assert SameRow(s.files[i], after.files[i]) && Placed(s.items, s.files[i]);
    }
  }

  lemma SameRowsRefl(files: seq<File>)
    ensures SameRows(files, files)
  {
  }

  lemma TakenBelow(files: seq<File>, evidence: Id, version: nat)
    requires Versioned(files) && 1 <= version <= Count(files, evidence)
    ensures VersionTaken(files, evidence, version)
  {
    var i := EveryVersion(files, evidence, version);
  }

  /** A version no file of the item has is the next one. */
  lemma FreeIsNext(s: System, a: Attach)
    requires RowsSound(s) && AttachPlaced(s.items, s.files, a) && !VersionTaken(s.files, a.evidence, a.version)
    ensures a.version == Count(s.files, a.evidence) + 1
  {
    if a.version <= Count(s.files, a.evidence) { TakenBelow(s.files, a.evidence, a.version); }
  }

  lemma RowAdded(s: System, call: Id, f: File, item: Item, after: System)
    requires RowsSound(s) && call in s.attaching && f.evidence in s.items && Placed(s.items, f)
    requires !KnownFile(s.files, f.id) && f.version == Count(s.files, f.evidence) + 1 && f.supersededBy.None?
    requires item.organisation == s.items[f.evidence].organisation && item.current == Some(f.id)
    requires after == s.(items := s.items[f.evidence := item],
                         files := Close(s.files, f.evidence, f.version - 1,
                                        f.id) + [f], attaching := s.attaching - {call})
    ensures RowsSound(after)
  {
    var closed := Close(s.files, f.evidence, f.version - 1, f.id);
    CommitRows(s.files, closed, f);
    forall i | 0 <= i < |after.files|
      ensures Placed(after.items, after.files[i])
    {
      if i < |s.files| { assert SameRow(s.files[i], closed[i]) && Placed(s.items, s.files[i]); }
    }
    forall c | c in after.attaching
      ensures AttachPlaced(after.items, after.files, after.attaching[c])
    {
      assert AttachPlaced(s.items, s.files, s.attaching[c]);
    }
  }

  lemma CommitKeepsRows(sha: Bytes -> string, s: System, op: Operation)
    requires RowsSound(s) && op.CommitAttach? && Enabled(s, op) && Commits(s, op)
    ensures RowsSound(Effect(sha, s, op))
  {
    var a := s.attaching[op.call];
    var item := s.items[a.evidence];
    FreeIsNext(s, a);
    RowAdded(s, op.call, NewFile(sha, a, op.fileId),
             item.(current := Some(op.fileId), received := true, version := item.version + 1), Effect(sha, s, op));
  }

  lemma CreateKeepsRows(sha: Bytes -> string, s: System, op: Operation)
    requires RowsSound(s) && op.CreateItem? && Enabled(s, op)
    ensures RowsSound(Effect(sha, s, op))
  {
    forall i | 0 <= i < |s.files|
      ensures s.files[i].evidence != op.id
    {
      assert Placed(s.items, s.files[i]);
    }
    NoFiles(s.files, op.id);
    SameRowsRefl(s.files);
    RowsStay(s, Effect(sha, s, op));
  }

  lemma MarkKeepsRows(sha: Bytes -> string, s: System, op: Operation)
    requires RowsSound(s) && op.MarkUnavailable? && Enabled(s, op)
    ensures RowsSound(Effect(sha, s, op))
  {
    HideLinked(s.files, s.items[op.evidence].current);
    RowsStay(s, Effect(sha, s, op));
  }

  /** A step of an upload that records no file. */
  lemma UploadKeepsRows(sha: Bytes -> string, s: System, op: Operation)
    requires RowsSound(s) && Enabled(s, op)
    requires op.Put? || op.Compensate? || op.Abandon? || (op.CommitAttach? && !Commits(s, op))
    ensures RowsSound(Effect(sha, s, op))
  {
    var after := Effect(sha, s, op);
    assert AttachPlaced(s.items, s.files, s.attaching[op.call]);
    SameRowsRefl(s.files);
    RowsStay(s, after);
  }

  lemma CheckKeepsRows(sha: Bytes -> string, s: System, op: Operation)
    requires RowsSound(s) && Enabled(s, op) && (op.BeginCheck? || op.ReadBytes? || op.CommitCheck?)
    ensures RowsSound(Effect(sha, s, op))
  {
    var after := Effect(sha, s, op);
    assert after.files == s.files && after.attaching == s.attaching;
    SameRowsRefl(s.files);
    RowsStay(s, after);
  }

  lemma BeginKeepsRows(sha: Bytes -> string, s: System, op: Operation)
    requires RowsSound(s) && op.BeginAttach? && Enabled(s, op)
    ensures RowsSound(Effect(sha, s, op))
  {
    MaxIsCount(s.files, op.evidence);
    SameRowsRefl(s.files);
    RowsStay(s, Effect(sha, s, op));
  }

  /** Every step of every interleaving, safe or not, keeps versions in order, links in place and the newest current. */
  lemma StepKeepsRows(sha: Bytes -> string, s: System, op: Operation)
    requires RowsSound(s)
    ensures RowsSound(Step(sha, s, op))
  {
    if Enabled(s, op) {
      if op.CreateItem? { CreateKeepsRows(sha, s, op); }
      else if op.BeginAttach? { BeginKeepsRows(sha, s, op); }
      else if op.MarkUnavailable? { MarkKeepsRows(sha, s, op); }
      else if op.BeginCheck? || op.ReadBytes? || op.CommitCheck? { CheckKeepsRows(sha, s, op); }
      else if op.CommitAttach? && Commits(s, op) { CommitKeepsRows(sha, s, op); }
      else { UploadKeepsRows(sha, s, op); }
    }
  }

  lemma {:induction false} RunKeepsRows(sha: Bytes -> string, s: System, ops: seq<Operation>)
    requires RowsSound(s)
    ensures RowsSound(Run(sha, s, ops))
    decreases |ops|
  {
    if ops != [] {
      StepKeepsRows(sha, s, ops[0]);
      RunKeepsRows(sha, Step(sha, s, ops[0]), ops[1..]);
    }
  }

  // ---------- which overlaps lose bytes ----------

  /** A file marked available whose bytes are not there. */
  ghost predicate Lost(s: System) {
    exists i :: 0 <= i < |s.files| && s.files[i].availability == Available && s.files[i].key !in s.store
  }

  lemma NothingLost(sha: Bytes -> string, s: System)
    requires Inv(sha, s)
    ensures !Lost(s)
  {
    forall i | 0 <= i < |s.files|
      ensures s.files[i].key in s.store
    {
      assert FileSound(sha, s.items, s.store, s.files[i]);
    }
  }

  /** No attach begins and nothing fails. */
  predicate Plain(op: Operation) {
    match op
    case BeginAttach(_, _, _, _, _, _, _) => false
    case Put(_, fails, _) => !fails
    case CommitAttach(_, _, fails) => !fails
    case Compensate(_, fails) => !fails
    case ReadBytes(_, fails) => !fails
    case CommitCheck(_, fails) => !fails
    case Abandon(_) => false
    case _ => true
  }

  ghost predicate AllPlain(ops: seq<Operation>) {
    forall i :: 0 <= i < |ops| ==> Plain(ops[i])
  }

  lemma {:induction false} PlainSafe(sha: Bytes -> string, s: System, ops: seq<Operation>)
    requires AllPlain(ops)
    ensures AllSafe(sha, s, ops)
    decreases |ops|
  {
    if ops != [] {
      assert Plain(ops[0]);
      forall i | 0 <= i < |ops[1..]|
        ensures Plain(ops[1..][i])
      {
        assert Plain(ops[i + 1]);
      }
      PlainSafe(sha, Step(sha, s, ops[0]), ops[1..]);
    }
  }

  function IdLength(files: seq<File>): nat {
    if files == [] then 0 else IdLength(files[..|files| - 1]) + |files[|files| - 1].id|
  }

  lemma {:induction false} IdsShorter(files: seq<File>, i: nat)
    requires i < |files|
    ensures |files[i].id| <= IdLength(files)
  {
    if i < |files| - 1 { IdsShorter(files[..|files| - 1], i); }
  }

  lemma FreshId(files: seq<File>) returns (id: Id)
    ensures !KnownFile(files, id)
  {
    id := seq(IdLength(files) + 1, _ => 'x');
    forall i | 0 <= i < |files|
      ensures files[i].id != id
    {
      IdsShorter(files, i);
    }
  }

  /** The item has moved on by so many versions, and nothing an upload needs has changed. */
  ghost predicate MovedOn(s: System, after: System, evidence: Id, steps: nat)
    requires evidence in s.items
  {
    && RowsSound(after) && after.attaching == s.attaching && Count(after.files, evidence) == Count(s.files, evidence)
    && evidence in after.items && after.items[evidence].version == s.items[evidence].version + steps
  }

  lemma MovesOnce(sha: Bytes -> string, s: System, actor: Actor, evidence: Id) returns (mark: Operation)
    requires RowsSound(s) && MayWrite(actor) && evidence in s.items
    ensures Plain(mark) && MovedOn(s, Step(sha, s, mark), evidence, 1)
  {
    var item := s.items[evidence];
    mark := MarkUnavailable(actor, item.caseId, evidence, "r", item.version);
    assert !IsSpace("r"[0]);
    StepKeepsRows(sha, s, mark);
    SameCount(s.files, Hide(s.files, item.current), evidence);
  }

  /** Marking an item unavailable again and again moves it on, one version each time. */
  lemma {:induction false} MovesOn(sha: Bytes -> string, s: System, actor: Actor, evidence: Id, steps: nat)
      returns (ops: seq<Operation>)
    requires RowsSound(s) && MayWrite(actor) && evidence in s.items
    ensures AllPlain(ops) && MovedOn(s, Run(sha, s, ops), evidence, steps)
    decreases steps
  {
    ops := [];
    if steps > 0 {
      var mark := MovesOnce(sha, s, actor, evidence);
      var rest := MovesOn(sha, Step(sha, s, mark), actor, evidence, steps - 1);
      RunStep(sha, s, mark, rest);
      ops := [mark] + rest;
    }
  }

  /** What is left of an attach, from the phase it is in. */
  function Remainder(call: Id, fileId: Id, phase: Phase): seq<Operation> {
    match phase
    case Reserved => [Put(call, false, None), CommitAttach(call, fileId, false), Compensate(call, false)]
    case Stored => [CommitAttach(call, fileId, false), Compensate(call, false)]
    case Failed => [Compensate(call, false)]
  }

  /** Up to the commit, an upload that is still current puts its row in. */
  lemma Records(sha: Bytes -> string, s: System, call: Id, fileId: Id) returns (ops: seq<Operation>)
    requires RowsSound(s) && call in s.attaching && !KnownFile(s.files, fileId)
    requires s.attaching[call].phase != Failed
    requires s.attaching[call].version == Count(s.files, s.attaching[call].evidence) + 1
    requires AtVersion(s, s.attaching[call].evidence, s.attaching[call].expected)
    ensures AllPlain(ops) && Run(sha, s, ops).attaching == s.attaching - {call}
    ensures var a, after := s.attaching[call], Run(sha, s, ops);
      after.files == Close(s.files, a.evidence, a.version - 1, fileId) + [NewFile(sha, a, fileId)]
  {
    var a := s.attaching[call];
    forall i | 0 <= i < |s.files| && s.files[i].evidence == a.evidence
      ensures s.files[i].version != a.version
    {
      VersionBound(s.files, i);
    }
    var commit := CommitAttach(call, fileId, false);
    if a.phase == Stored {
      ops := [commit];
      assert ops == [commit] + [];
      RunStep(sha, s, commit, []);
    } else {
      ops := [Put(call, false, None), commit];
      assert ops == [Put(call, false, None)] + [commit] && [commit] == [commit] + [];
      var put := Step(sha, s, Put(call, false, None));
      RunStep(sha, s, Put(call, false, None), [commit]);
      RunStep(sha, put, commit, []);
      assert put.attaching - {call} == s.attaching - {call};
    }
  }

  /** An attach whose version was taken meanwhile leaves the rows as they are and removes the object, in whatever phase.
      */
  lemma Removes(sha: Bytes -> string, s: System, call: Id, fileId: Id)
    requires call in s.attaching && !KnownFile(s.files, fileId)
    requires VersionTaken(s.files, s.attaching[call].evidence, s.attaching[call].version)
    ensures var after := Run(sha, s, Remainder(call, fileId, s.attaching[call].phase));
      after.files == s.files && s.attaching[call].key !in after.store
  {
    var a := s.attaching[call];
    match a.phase {
      case Reserved =>
        var ops := Remainder(call, fileId, Reserved);
        var put := s.(store := s.store[a.key := a.bytes], attaching := s.attaching[call := a.(phase := Stored)]);
        assert ops == [ops[0]] + Remainder(call, fileId, Stored);
        RunStep(sha, s, ops[0], Remainder(call, fileId, Stored));
        RemovesStored(sha, put, call, fileId);
      case Stored => RemovesStored(sha, s, call, fileId);
      case Failed => RemovesFailed(sha, s, call);
    }
  }

  lemma RemovesStored(sha: Bytes -> string, s: System, call: Id, fileId: Id)
    requires call in s.attaching && s.attaching[call].phase == Stored && !KnownFile(s.files, fileId)
    requires VersionTaken(s.files, s.attaching[call].evidence, s.attaching[call].version)
    ensures var after := Run(sha, s, Remainder(call, fileId, Stored));
      after.files == s.files && s.attaching[call].key !in after.store
  {
    var a, commit := s.attaching[call], CommitAttach(call, fileId, false);
    assert Remainder(call, fileId, Stored) == [commit] + [Compensate(call, false)];
    RunStep(sha, s, commit, [Compensate(call, false)]);
    RemovesFailed(sha, s.(attaching := s.attaching[call := a.(phase := Failed)]), call);
  }

  lemma RemovesFailed(sha: Bytes -> string, s: System, call: Id)
    requires call in s.attaching && s.attaching[call].phase == Failed
    ensures var after := Run(sha, s, [Compensate(call, false)]);
      after.files == s.files && s.attaching[call].key !in after.store
  {
    assert [Compensate(call, false)] == [Compensate(call, false)] + [];
    RunStep(sha, s, Compensate(call, false), []);
  }

  /** Two uploads of the same version, one of which can still be recorded: it is, and the other takes its bytes away. */
  lemma Collide(sha: Bytes -> string, s: System, winner: Id, loser: Id, actor: Actor) returns (ops: seq<Operation>)
    requires RowsSound(s) && MayWrite(actor) && winner != loser && winner in s.attaching && loser in s.attaching
    requires s.attaching[winner].evidence == s.attaching[loser].evidence
    requires s.attaching[winner].version == s.attaching[loser].version
    requires s.attaching[winner].version == Count(s.files, s.attaching[winner].evidence) + 1
    requires !Doomed(s.items, s.attaching[winner])
    ensures AllPlain(ops) && Lost(Run(sha, s, ops))
  {
    var a, b := s.attaching[winner], s.attaching[loser];
    assert AttachPlaced(s.items, s.files, a) && AttachPlaced(s.items, s.files, b);
    var marks := MovesOn(sha, s, actor, a.evidence, a.expected - s.items[a.evidence].version);
    var moved := Run(sha, s, marks);
    var rest := CollideNow(sha, moved, winner, loser);
    RunConcat(sha, s, marks, rest);
    ops := marks + rest;
  }

  lemma CollideNow(sha: Bytes -> string, s: System, winner: Id, loser: Id) returns (ops: seq<Operation>)
    requires RowsSound(s) && winner != loser && winner in s.attaching && loser in s.attaching
    requires s.attaching[winner].evidence == s.attaching[loser].evidence
    requires s.attaching[winner].key == s.attaching[loser].key
    requires s.attaching[winner].version == s.attaching[loser].version
    requires s.attaching[winner].version == Count(s.files, s.attaching[winner].evidence) + 1
    requires s.attaching[winner].phase != Failed
    requires AtVersion(s, s.attaching[winner].evidence, s.attaching[winner].expected)
    ensures AllPlain(ops) && Lost(Run(sha, s, ops))
  {
    var a, b, n := s.attaching[winner], s.attaching[loser], |s.files|;
    var f := FreshId(s.files);
    var wins := Records(sha, s, winner, f);
    var recorded := Run(sha, s, wins);
    assert recorded.files[n] == NewFile(sha, a, f);
    assert VersionTaken(recorded.files, b.evidence, b.version);
    var g := FreshId(recorded.files);
    var loses := Remainder(loser, g, b.phase);
    Removes(sha, recorded, loser, g);
    RunConcat(sha, s, wins, loses);
    ops := wins + loses;
    assert Run(sha, s, ops).files[n] == NewFile(sha, a, f);
  }

  lemma Begun(sha: Bytes -> string, s: System, begin: Operation, other: Id)
    requires Inv(sha, s) && begin.BeginAttach? && Enabled(s, begin)
    requires other in s.attaching && s.attaching[other].evidence == begin.evidence
    ensures var begun := Step(sha, s, begin);
      && RowsSound(begun) && begun.files == s.files && begun.items == s.items
      && begin.call in begun.attaching && begin.call != other && other in begun.attaching
      && begun.attaching[other] == s.attaching[other] && begun.attaching[begin.call] == NewAttach(s, begin)
      && s.attaching[other].version == NewAttach(s, begin).version == Count(s.files, begin.evidence) + 1
  {
    InvRows(sha, s);
    StepKeepsRows(sha, s, begin);
    MaxIsCount(s.files, begin.evidence);
    assert AttachSound(s.items, s.files, s.store, s.attaching[other]);
  }

  /** A second attach that is not safe to begin can, with nothing else failing, cost the file that is recorded its
      bytes. */
  lemma OverlapLoses(sha: Bytes -> string, s: System, begin: Operation) returns (ops: seq<Operation>)
    requires Inv(sha, s) && begin.BeginAttach? && Enabled(s, begin) && !Safe(s, begin)
    ensures AllPlain(ops) && Lost(Run(sha, Step(sha, s, begin), ops))
  {
    var other :| other in s.attaching && s.attaching[other].evidence == begin.evidence
      && !(Doomed(s.items, s.attaching[other]) && Overtaken(s.items, begin.evidence, begin.expected));
    Begun(sha, s, begin, other);
    if Overtaken(s.items, begin.evidence, begin.expected) {
      ops := Collide(sha, Step(sha, s, begin), other, begin.call, begin.actor);
    } else {
      ops := Collide(sha, Step(sha, s, begin), begin.call, other, begin.actor);
    }
  }

  ghost predicate NeverLoses(sha: Bytes -> string, s: System) {
    forall ops :: AllSafe(sha, s, ops) ==> !Lost(Run(sha, s, ops))
  }

  /** An attach may begin on an item exactly when no run that goes on from there, itself beginning only what is safe,
      loses a recorded file's bytes. */
  lemma OverlapExactly(sha: Bytes -> string, s: System, begin: Operation)
    requires Inv(sha, s) && begin.BeginAttach? && Enabled(s, begin)
    ensures Safe(s, begin) <==> NeverLoses(sha, Step(sha, s, begin))
  {
    var begun := Step(sha, s, begin);
    if Safe(s, begin) {
      StepKeepsInv(sha, s, begin);
      forall ops | AllSafe(sha, begun, ops)
        ensures !Lost(Run(sha, begun, ops))
      {
        RunKeeps(sha, begun, ops);
        NothingLost(sha, Run(sha, begun, ops));
      }
    } else {
      var ops := OverlapLoses(sha, s, begin);
      PlainSafe(sha, begun, ops);
      assert AllSafe(sha, begun, ops) && Lost(Run(sha, begun, ops));
    }
  }
}
