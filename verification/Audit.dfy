/** The hash-linked audit log: in memory (packages/governance/src/audit.ts, `AuditChain`) and as a table
    (packages/database/src/audit-store.ts, `PostgresAuditStore`).
    The hash is a parameter. Nothing is assumed of it except where a lemma says that it does not collide on
    what the logs in question hash. */
module Audit {
  import opened Prelude
  import opened Canonical

  type Hash = Text -> Text

  /** The two things that are hashed: an entry's header and its payload. */
  datatype Digests = Digests(header: Header -> Text, payload: Value -> Text)

  /** Both are hashed through their canonical text. */
  function Through(h: Hash): Digests {
    Digests(header => h(HeaderText(header)), payload => h(Canonicalise(payload)))
  }

  function Zeros(n: nat): (t: Text)
    ensures |t| == n && forall i :: 0 <= i < n ==> t[i] == 48
  {
    if n == 0 then [] else [48] + Zeros(n - 1)
  }

  const GENESIS: Text := Zeros(64)

  /** The fields an entry's hash commits to. */
  datatype Header = Header(number: nat, at: Text, actor: Text, action: Text, subject: Text, payloadHash: Text,
                           prevHash: Text)

  datatype Input = Input(at: Text, actor: Text, action: Text, subject: Text, payload: Value)

  /** One row of the log. An in-memory entry is a row that is never tombstoned. */
  datatype Row = Row(header: Header, payload: Value, hash: Text, tombstonedAt: Option<Text>)

  // ---------- what is hashed ----------

  function Decimal(n: nat): Numeral {
    if n < 10 then [48 + n]
    else
      var front := Decimal(n / 10);
      assert (front + [48 + n % 10])[0] == front[0];
      front + [48 + n % 10]
  }

  /** The number a run of decimal digits stands for. */
  function Numeric(t: Text): int {
    if t == [] then 0 else Numeric(t[..|t| - 1]) * 10 + (t[|t| - 1] as int - 48)
  }

  lemma {:induction false} DecimalReads(n: nat)
    ensures Numeric(Decimal(n)) == n
    ensures n > 0 ==> Decimal(n)[0] != 48
  {
    if n >= 10 {
      DecimalReads(n / 10);
      assert Decimal(n)[..|Decimal(n)| - 1] == Decimal(n / 10);
      assert Decimal(n)[0] == Decimal(n / 10)[0];
    } else {
      assert [48 + n][..0] == [];
    }
  }

  const SEQ_KEY: Text := [115, 101, 113]
  const AT_KEY: Text := [97, 116]
  const ACTOR_KEY: Text := [97, 99, 116, 111, 114]
  const ACTION_KEY: Text := [97, 99, 116, 105, 111, 110]
  const SUBJECT_KEY: Text := [115, 117, 98, 106, 101, 99, 116]
  const PAYLOAD_HASH_KEY: Text := [112, 97, 121, 108, 111, 97, 100, 72, 97, 115, 104]
  const PREV_HASH_KEY: Text := [112, 114, 101, 118, 72, 97, 115, 104]

  /** The code units of these characters. */
  predicate Spells(t: Text, s: string) {
    |t| == |s| && forall i :: 0 <= i < |t| ==> t[i] == s[i] as int
  }

  lemma KeyNames()
    ensures Spells(SEQ_KEY, "seq") && Spells(AT_KEY, "at") && Spells(ACTOR_KEY, "actor")
    ensures Spells(ACTION_KEY, "action") && Spells(SUBJECT_KEY, "subject")
    ensures Spells(PAYLOAD_HASH_KEY, "payloadHash") && Spells(PREV_HASH_KEY, "prevHash")
  {
  }

  function HeaderFields(h: Header): seq<Field> {
    [Field(SEQ_KEY, Number(Decimal(h.number))), Field(AT_KEY, String(h.at)), Field(ACTOR_KEY, String(h.actor)),
     Field(ACTION_KEY, String(h.action)), Field(SUBJECT_KEY, String(h.subject)),
     Field(PAYLOAD_HASH_KEY, String(h.payloadHash)), Field(PREV_HASH_KEY, String(h.prevHash))]
  }

  function HeaderText(h: Header): Text {
    Canonicalise(Object(HeaderFields(h)))
  }

  /** Exactly these seven members. */
  predicate SaysHeader(ms: map<Text, Logical>, h: Header) {
    && ms.Keys == {SEQ_KEY, AT_KEY, ACTOR_KEY, ACTION_KEY, SUBJECT_KEY, PAYLOAD_HASH_KEY, PREV_HASH_KEY}
    && ms[SEQ_KEY] == LNumber(Decimal(h.number)) && ms[AT_KEY] == LString(h.at) && ms[ACTOR_KEY] == LString(h.actor)
    && ms[ACTION_KEY] == LString(h.action) && ms[SUBJECT_KEY] == LString(h.subject)
    && ms[PAYLOAD_HASH_KEY] == LString(h.payloadHash) && ms[PREV_HASH_KEY] == LString(h.prevHash)
  }

  /** Seven fields whose keys have different lengths, each saying the one thing. */
  ghost predicate Seven(fs: seq<Field>, ls: seq<Logical>) {
    && |fs| == |ls| == 7
    && |fs[0].key| == 3 && |fs[1].key| == 2 && |fs[2].key| == 5 && |fs[3].key| == 6
    && |fs[4].key| == 7 && |fs[5].key| == 11 && |fs[6].key| == 8
    && (forall i :: 0 <= i < 7 ==> !fs[i].value.Undefined? && Proper(fs[i].value) && Denote(fs[i].value) == ls[i])
  }

  lemma {:induction false} HeaderSeven(h: Header)
    ensures Seven(HeaderFields(h), [LNumber(Decimal(h.number)), LString(h.at), LString(h.actor), LString(h.action),
                                    LString(h.subject), LString(h.payloadHash), LString(h.prevHash)])
  {
    KeyNames();
  }

  lemma {:induction false} SevenProper(fs: seq<Field>, ls: seq<Logical>)
    requires Seven(fs, ls)
    ensures DistinctKeys(fs) && Proper(Object(fs))
  {
    ProperFieldsAll(fs);
  }

  lemma {:induction false} SevenMembers(fs: seq<Field>, ls: seq<Logical>)
    requires Seven(fs, ls)
    ensures Members(fs).Keys == {fs[0].key, fs[1].key, fs[2].key, fs[3].key, fs[4].key, fs[5].key, fs[6].key}
    ensures forall i :: 0 <= i < 7 ==> fs[i].key in Members(fs) && Members(fs)[fs[i].key] == ls[i]
  {
    SevenProper(fs, ls);
    forall i | 0 <= i < 7 ensures fs[i].key in Members(fs) && Members(fs)[fs[i].key] == ls[i] {
      MemberValue(fs, fs[i]);
    }
    forall k | k in Members(fs) ensures exists i :: 0 <= i < 7 && fs[i].key == k { MemberKey(fs, k); }
  }

  /** What is hashed is JSON with exactly these members, the number in decimal without leading zeros. */
  lemma {:induction false} HeaderReads(h: Header)
    ensures var r := ReadValue(HeaderText(h));
      && r.Some? && r.value.1 == [] && Ascends(r.value.0)
      && Says(r.value.0).LObject? && SaysHeader(Says(r.value.0).members, h)
    ensures Numeric(Decimal(h.number)) == h.number && (h.number > 0 ==> Decimal(h.number)[0] != 48)
  {
    var fs := HeaderFields(h);
    var ls := [LNumber(Decimal(h.number)), LString(h.at), LString(h.actor), LString(h.action), LString(h.subject),
               LString(h.payloadHash), LString(h.prevHash)];
    HeaderSeven(h);
    SevenProper(fs, ls);
    SevenMembers(fs, ls);
    ReadsBack(Object(fs));
    DecimalReads(h.number);
  }

  /** The hashed text determines every hashed field. */
  lemma {:induction false} HeaderInjective(a: Header, b: Header)
    ensures HeaderText(a) == HeaderText(b) <==> a == b
  {
    if HeaderText(a) == HeaderText(b) {
      HeaderReads(a);
      HeaderReads(b);
    }
  }

  // ---------- an intact log ----------

  function Previous(rows: seq<Row>, i: nat): Text
    requires i <= |rows|
  {
    if i == 0 then GENESIS else rows[i - 1].hash
  }

  predicate PayloadMatches(d: Digests, r: Row) {
    r.tombstonedAt.Some? || r.header.payloadHash == d.payload(r.payload)
  }

  /** A row sits at its number, links to the row before it and is hashed as its header says. */
  predicate LinkedAt(d: Digests, rows: seq<Row>, i: nat)
    requires i < |rows|
  {
    var r := rows[i];
    r.header.number == i && r.header.prevHash == Previous(rows, i) && r.hash == d.header(r.header)
  }

  predicate IntactAt(d: Digests, rows: seq<Row>, i: nat)
    requires i < |rows|
  {
    LinkedAt(d, rows, i) && PayloadMatches(d, rows[i])
  }

  ghost predicate Intact(d: Digests, rows: seq<Row>) {
    forall i {:trigger IntactAt(d, rows, i)} :: 0 <= i < |rows| ==> IntactAt(d, rows, i)
  }

  datatype Reason = OutOfOrder | DoesNotLink | PayloadAltered | HashMismatch

  datatype Verification = Valid | Broken(at: nat, reason: Reason)

  /** The reason is the first check, in order, that the row fails. */
  predicate Fails(d: Digests, rows: seq<Row>, i: nat, reason: Reason)
    requires i < |rows|
  {
    var r := rows[i];
    match reason
    case OutOfOrder => r.header.number != i
    case DoesNotLink => r.header.number == i && r.header.prevHash != Previous(rows, i)
    case PayloadAltered => r.header.number == i && r.header.prevHash == Previous(rows, i) && !PayloadMatches(d, r)
    case HashMismatch =>
      && r.header.number == i && r.header.prevHash == Previous(rows, i) && PayloadMatches(d, r)
      && r.hash != d.header(r.header)
  }

  /** Recomputes every hash in order: it accepts exactly the intact logs, and otherwise names the first broken row. */
  method VerifyRows(d: Digests, rows: seq<Row>) returns (v: Verification)
    ensures v.Valid? <==> Intact(d, rows)
    ensures v.Broken? ==> v.at < |rows| && Intact(d, rows[..v.at]) && Fails(d, rows, v.at, v.reason)
  {
    var prevHash := GENESIS;
    for index := 0 to |rows|
      invariant prevHash == Previous(rows, index)
      invariant Intact(d, rows[..index])
    {
      var row := rows[index];
      FirstBroken(d, rows, index);
      if row.header.number != index { return Broken(index, OutOfOrder); }
      if row.header.prevHash != prevHash { return Broken(index, DoesNotLink); }
      var tombstoned := row.tombstonedAt.Some?;
      var payloadHash := if tombstoned then row.header.payloadHash else d.payload(row.payload);
      if !tombstoned && payloadHash != row.header.payloadHash { return Broken(index, PayloadAltered); }
      var expected := d.header(row.header.(payloadHash := payloadHash, prevHash := prevHash));
      assert row.header.(payloadHash := payloadHash, prevHash := prevHash) == row.header;
      if expected != row.hash { return Broken(index, HashMismatch); }
      prevHash := row.hash;
    }
    assert rows[..|rows|] == rows;
    return Valid;
  }

  /** After an intact prefix, the next row decides. */
  lemma FirstBroken(d: Digests, rows: seq<Row>, k: nat)
    requires k < |rows| && Intact(d, rows[..k])
    ensures Intact(d, rows[..k + 1]) <==> IntactAt(d, rows, k)
    ensures !IntactAt(d, rows, k) ==> !Intact(d, rows)
  {
    var longer := rows[..k + 1];
    forall i | 0 <= i < k
      ensures IntactAt(d, longer, i)
    {
      assert IntactAt(d, rows[..k], i);
    }
    assert IntactAt(d, longer, k) <==> IntactAt(d, rows, k);
  }

  lemma PrefixIntact(d: Digests, rows: seq<Row>, k: nat)
    requires k <= |rows| && Intact(d, rows)
    ensures Intact(d, rows[..k])
  {
    forall i | 0 <= i < k ensures IntactAt(d, rows[..k], i) {
      assert IntactAt(d, rows, i);
    }
  }

  // ---------- appending and erasing ----------

  function HeaderFor(d: Digests, log: seq<Row>, input: Input): Header {
    Header(if log == [] then 0 else log[|log| - 1].header.number + 1, input.at, input.actor, input.action,
           input.subject,
           d.payload(input.payload), if log == [] then GENESIS else log[|log| - 1].hash)
  }

  /** The row a later read sees: hashed as given, but with the instant and the payload as the columns give them back. */
  function RowFor(d: Digests, readBack: Text -> Text, log: seq<Row>, input: Input, stored: Value): Row {
    var header := HeaderFor(d, log, input);
    Row(header.(at := readBack(header.at)), stored, d.header(header), None)
  }

  datatype Operation = Append(input: Input, stored: Value) | Tombstone(number: int, at: Text)

  /** The payload column keeps what the payload says, not the order of its keys. */
  ghost predicate Sound(op: Operation) {
    op.Append? ==> Proper(op.input.payload) && Proper(op.stored) && Denote(op.stored) == Denote(op.input.payload)
  }

  predicate HashTaken(log: seq<Row>, hash: Text) {
    exists i :: 0 <= i < |log| && log[i].hash == hash
  }

  predicate Erasable(row: Row, number: int) {
    row.header.number == number && row.tombstonedAt.None?
  }

  predicate Present(log: seq<Row>, number: int) {
    exists i :: 0 <= i < |log| && Erasable(log[i], number)
  }

  function Erased(row: Row, at: Text): Row {
    row.(payload := Object([]), tombstonedAt := Some(at))
  }

  function EraseWhere(log: seq<Row>, number: int, at: Text): seq<Row> {
    seq(|log|, i requires 0 <= i < |log| => if Erasable(log[i], number) then Erased(log[i], at) else log[i])
  }

  /** One statement on the table, or nothing when it is refused: `hash` is unique in the table, and only a row
      not yet erased can be erased. */
  function Step(d: Digests, readBack: Text -> Text, log: seq<Row>, op: Operation): Option<seq<Row>> {
    match op
    case Append(input, stored) =>
      var row := RowFor(d, readBack, log, input, stored);
      if HashTaken(log, row.hash) then None else Some(log + [row])
    case Tombstone(number, at) =>
      if Present(log, number) then Some(EraseWhere(log, number, at)) else None
  }

  function Run(d: Digests, readBack: Text -> Text, ops: seq<Operation>): seq<Row> {
    if ops == [] then [] else
    var log := Run(d, readBack, ops[..|ops| - 1]);
    Step(d, readBack, log, ops[|ops| - 1]).GetOr(log)
  }

  /** Erasing a payload leaves every hashed field, and so the tip, alone; the log verifies afterwards exactly when
      it verified before, the payload just erased aside. */
  lemma TombstoneExactly(d: Digests, log: seq<Row>, number: int, at: Text)
    ensures var after := EraseWhere(log, number, at);
      && |after| == |log|
      && (forall i :: 0 <= i < |log| ==> after[i].header == log[i].header && after[i].hash == log[i].hash)
      && (Intact(d, after) <==> forall i {:trigger LinkedAt(d, log, i)} :: 0 <= i < |log| ==>
                                  LinkedAt(d, log, i) && (Erasable(log[i], number) || PayloadMatches(d, log[i])))
  {
    var after := EraseWhere(log, number, at);
    forall i | 0 <= i < |log|
      ensures IntactAt(d, after, i) <==> LinkedAt(d, log, i) && (Erasable(log[i], number) || PayloadMatches(d, log[i]))
    {
      assert LinkedAt(d, after, i) <==> LinkedAt(d, log, i);
    }
  }

  /** Payloads that say the same are hashed the same. */
  ghost predicate Respects(d: Digests) {
    forall x, y :: Proper(x) && Proper(y) && Denote(x) == Denote(y) ==> d.payload(x) == d.payload(y)
  }

  lemma CanonicalRespects(h: Hash)
    ensures Respects(Through(h))
  {
    forall x, y | Proper(x) && Proper(y) && Denote(x) == Denote(y)
      ensures Through(h).payload(x) == Through(h).payload(y)
    {
      CanonicalExactly(x, y);
    }
  }

  /** The hash tells the header as written from the header as read back. */
  predicate Distinguishes(d: Digests, readBack: Text -> Text, log: seq<Row>, input: Input) {
    var header := HeaderFor(d, log, input);
    var read := header.(at := readBack(header.at));
    d.header(header) == d.header(read) ==> header == read
  }

  /** A row appended to an intact log verifies exactly when the stored instant reads back as it was hashed. */
  lemma AppendVerifies(d: Digests, readBack: Text -> Text, log: seq<Row>, input: Input, stored: Value)
    requires Respects(d) && Sound(Append(input, stored)) && Distinguishes(d, readBack, log, input)
    ensures PayloadMatches(d, RowFor(d, readBack, log, input, stored))
    ensures Intact(d, log + [RowFor(d, readBack, log, input, stored)]) <==>
      Intact(d, log) && readBack(input.at) == input.at
  {
    var row := RowFor(d, readBack, log, input, stored);
    var after, n := log + [row], |log|;
    assert after[..n] == log && after[..n + 1] == after;
    if Intact(d, after) {
      PrefixIntact(d, after, n);
    }
    if Intact(d, log) {
      assert n > 0 ==> IntactAt(d, log, n - 1);
      FirstBroken(d, after, n);
    }
  }

  /** Every append that succeeded was given an instant that the column returns unchanged. */
  predicate Faithful(d: Digests, readBack: Text -> Text, ops: seq<Operation>) {
    if ops == [] then true else
    var front, op := ops[..|ops| - 1], ops[|ops| - 1];
    && Faithful(d, readBack, front)
    && (op.Append? && Step(d, readBack, Run(d, readBack, front), op).Some? ==> readBack(op.input.at) == op.input.at)
  }

  ghost predicate SoundRun(d: Digests, readBack: Text -> Text, ops: seq<Operation>) {
    if ops == [] then true else
    var front, op := ops[..|ops| - 1], ops[|ops| - 1];
    && SoundRun(d, readBack, front) && Sound(op)
    && (op.Append? ==> Distinguishes(d, readBack, Run(d, readBack, front), op.input))
  }

  /** A log reached by any run of appends and erasures verifies exactly when the run was faithful. */
  lemma {:induction false} ReachableVerifies(d: Digests, readBack: Text -> Text, ops: seq<Operation>)
    requires Respects(d) && SoundRun(d, readBack, ops)
    ensures Intact(d, Run(d, readBack, ops)) <==> Faithful(d, readBack, ops)
  {
    if ops != [] {
      var front, op := ops[..|ops| - 1], ops[|ops| - 1];
      ReachableVerifies(d, readBack, front);
      ReachablePayloads(d, readBack, front);
      var log := Run(d, readBack, front);
      match op {
        case Append(input, stored) =>
          AppendVerifies(d, readBack, log, input, stored);
        case Tombstone(number, at) =>
          TombstoneExactly(d, log, number, at);
          assert Intact(d, log) <==>
            forall i {:trigger LinkedAt(d, log, i)} :: 0 <= i < |log| ==> LinkedAt(d, log, i) by {
            assert forall i :: 0 <= i < |log| ==> (IntactAt(d, log, i) <==> LinkedAt(d, log, i));
          }
      }
    }
  }

  lemma {:induction false} ReachablePayloads(d: Digests, readBack: Text -> Text, ops: seq<Operation>)
    requires Respects(d) && SoundRun(d, readBack, ops)
    ensures forall i :: 0 <= i < |Run(d, readBack, ops)| ==> PayloadMatches(d, Run(d, readBack, ops)[i])
  {
    if ops != [] {
      var front, op := ops[..|ops| - 1], ops[|ops| - 1];
      ReachablePayloads(d, readBack, front);
      if op.Append? {
        AppendVerifies(d, readBack, Run(d, readBack, front), op.input, op.stored);
      }
    }
  }

  // ---------- what erasing forgets ----------

  /** A row's number is its position, the first row links to 64 zeros, and an erased row holds an empty object. */
  ghost predicate Forgotten(log: seq<Row>) {
    && (log != [] ==> |log[0].header.prevHash| == 64 && forall k :: 0 <= k < 64 ==> log[0].header.prevHash[k] == 48)
    && forall i :: 0 <= i < |log| ==>
         log[i].header.number == i && (log[i].tombstonedAt.Some? ==> log[i].payload == Object([]))
  }

  /** So in every reachable log; an erasure there touches one row at most. */
  lemma {:induction false} ReachableForgotten(d: Digests, readBack: Text -> Text, ops: seq<Operation>)
    ensures Forgotten(Run(d, readBack, ops))
  {
    if ops != [] {
      var n := |ops| - 1;
      ReachableForgotten(d, readBack, ops[..n]);
      assert Forgotten(Run(d, readBack, ops[..n]));
    }
  }

  /** The logs differ in payloads alone, and in none that either has erased. */
  ghost predicate SameButPayloads(a: seq<Row>, b: seq<Row>) {
    && |a| == |b|
    && forall i :: 0 <= i < |a| ==>
         a[i].(payload := b[i].payload) == b[i] && (a[i].tombstonedAt.Some? ==> a[i] == b[i])
  }

  lemma SamePayloadStep(d: Digests, readBack: Text -> Text, a: seq<Row>, b: seq<Row>, op: Operation)
    requires SameButPayloads(a, b)
    ensures SameButPayloads(Step(d, readBack, a, op).GetOr(a), Step(d, readBack, b, op).GetOr(b))
  {
    match op {
      case Append(input, stored) =>
        assert HeaderFor(d, a, input) == HeaderFor(d, b, input);
        assert forall h :: HashTaken(a, h) <==> HashTaken(b, h);
      case Tombstone(number, at) =>
        assert forall i :: 0 <= i < |a| ==> (Erasable(a[i], number) <==> Erasable(b[i], number));
        assert Present(a, number) <==> Present(b, number) by {
          if i :| 0 <= i < |a| && Erasable(a[i], number) { assert Erasable(b[i], number); }
          if i :| 0 <= i < |b| && Erasable(b[i], number) { assert Erasable(a[i], number); }
        }
    }
  }

  /** What an erased row once stored cannot be told from the log: had the call that wrote it been given any other
      payload of the same hash, or the column kept it in any other form, whatever the run, the log would differ in that
      payload alone until it is erased, and in nothing afterwards. */
  lemma {:induction false} ErasureForgets(d: Digests, readBack: Text -> Text, ops: seq<Operation>, k: nat,
                                          payload: Value, stored: Value)
    requires k < |ops| && ops[k].Append? && d.payload(payload) == d.payload(ops[k].input.payload)
    ensures SameButPayloads(Run(d, readBack, ops),
                            Run(d, readBack, ops[k := Append(ops[k].input.(payload := payload), stored)]))
  {
    var other := ops[k := Append(ops[k].input.(payload := payload), stored)];
    var n := |ops| - 1;
    var log := Run(d, readBack, ops[..n]);
    if k < n {
      ErasureForgets(d, readBack, ops[..n], k, payload, stored);
      assert other[..n] == ops[..n][k := other[k]];
      SamePayloadStep(d, readBack, log, Run(d, readBack, other[..n]), ops[n]);
    } else {
      assert other[..n] == ops[..n];
      assert HeaderFor(d, log, ops[k].input) == HeaderFor(d, log, other[k].input);
    }
  }

  // ---------- the tip determines the log ----------

  /** The hash does not collide on the headers and payloads of these two logs. */
  ghost predicate CollisionFree(d: Digests, a: seq<Row>, b: seq<Row>) {
    && (forall i, j :: 0 <= i < |a| && 0 <= j < |b| && d.header(a[i].header) == d.header(b[j].header) ==>
          a[i].header == b[j].header)
    && (forall i, j :: 0 <= i < |a| && 0 <= j < |b| && d.payload(a[i].payload) == d.payload(b[j].payload) ==>
          Denote(a[i].payload) == Denote(b[j].payload))
  }

  /** Two verifying logs with the same last hash have the same length, agree on every hashed field of every entry,
      and agree on what every payload says that neither has erased. */
  lemma TipDetermines(d: Digests, a: seq<Row>, b: seq<Row>)
    requires Intact(d, a) && Intact(d, b) && CollisionFree(d, a, b)
    requires a != [] && b != [] && a[|a| - 1].hash == b[|b| - 1].hash
    ensures |a| == |b|
    ensures forall i :: 0 <= i < |a| ==> a[i].header == b[i].header && a[i].hash == b[i].hash
    ensures forall i :: 0 <= i < |a| && a[i].tombstonedAt.None? && b[i].tombstonedAt.None? ==>
      Denote(a[i].payload) == Denote(b[i].payload)
  {
    assert IntactAt(d, a, |a| - 1) && IntactAt(d, b, |b| - 1);
    assert |a| == |b|;
    forall i | 0 <= i < |a|
      ensures a[i].header == b[i].header && a[i].hash == b[i].hash
    {
      AgreeBackTo(d, a, b, i);
    }
    forall i | 0 <= i < |a| && a[i].tombstonedAt.None? && b[i].tombstonedAt.None?
      ensures Denote(a[i].payload) == Denote(b[i].payload)
    {
      assert IntactAt(d, a, i) && IntactAt(d, b, i);
    }
  }

  lemma {:induction false} AgreeBackTo(d: Digests, a: seq<Row>, b: seq<Row>, i: nat)
    requires Intact(d, a) && Intact(d, b) && CollisionFree(d, a, b)
    requires i < |a| == |b| && a[|a| - 1].hash == b[|b| - 1].hash
    ensures a[i].header == b[i].header && a[i].hash == b[i].hash
    decreases |a| - i
  {
    if i + 1 < |a| {
      AgreeBackTo(d, a, b, i + 1);
      assert IntactAt(d, a, i + 1) && IntactAt(d, b, i + 1);
    }
    assert IntactAt(d, a, i) && IntactAt(d, b, i);
  }

  /** Taking one row out of an intact log is noticed exactly when it is not the last one: the tip alone is not
      protected by the chain. */
  lemma DeletionDetected(d: Digests, rows: seq<Row>, k: nat)
    requires Intact(d, rows) && k < |rows|
    ensures Intact(d, rows[..k] + rows[k + 1..]) <==> k == |rows| - 1
  {
    var fewer := rows[..k] + rows[k + 1..];
    if k == |rows| - 1 {
      assert fewer == rows[..k];
      PrefixIntact(d, rows, k);
    } else {
      assert fewer[k] == rows[k + 1] && IntactAt(d, rows, k + 1);
      assert !IntactAt(d, fewer, k);
    }
  }

  /** For texts: if the hash does not collide on the canonical texts the two logs hash, it does not collide on
      their headers, nor on what their payloads say. */
  lemma CanonicalCollisionFree(h: Hash, a: seq<Row>, b: seq<Row>)
    requires forall i :: 0 <= i < |a| ==> Proper(a[i].payload)
    requires forall i :: 0 <= i < |b| ==> Proper(b[i].payload)
    requires forall s, t :: s in Texts(a) && t in Texts(b) && h(s) == h(t) ==> s == t
    ensures CollisionFree(Through(h), a, b)
  {
    var d := Through(h);
    forall i, j | 0 <= i < |a| && 0 <= j < |b| && d.header(a[i].header) == d.header(b[j].header)
      ensures a[i].header == b[j].header
    {
      assert HeaderText(a[i].header) in Texts(a) && HeaderText(b[j].header) in Texts(b);
      HeaderInjective(a[i].header, b[j].header);
    }
    forall i, j | 0 <= i < |a| && 0 <= j < |b| && d.payload(a[i].payload) == d.payload(b[j].payload)
      ensures Denote(a[i].payload) == Denote(b[j].payload)
    {
      assert Canonicalise(a[i].payload) in Texts(a) && Canonicalise(b[j].payload) in Texts(b);
      CanonicalExactly(a[i].payload, b[j].payload);
    }
  }

  /** The canonical texts a log hashes. */
  function Texts(rows: seq<Row>): set<Text> {
    (set i | 0 <= i < |rows| :: HeaderText(rows[i].header)) + (set i | 0 <= i < |rows| :: Canonicalise(rows[i].payload))
  }

  /** A row linked to the last of a log and hashed as it says leaves the log as intact as it was. */
  lemma AppendKeeps(d: Digests, log: seq<Row>, row: Row)
    requires row.header.number == |log| && row.header.prevHash == Previous(log, |log|)
    requires row.hash == d.header(row.header) && PayloadMatches(d, row)
    ensures Intact(d, log + [row]) <==> Intact(d, log)
    ensures Intact(d, log) && log != [] ==> log[|log| - 1].header.number == |log| - 1
  {
    var after, n := log + [row], |log|;
    assert after[..n] == log && after[..n + 1] == after;
    if Intact(d, after) { PrefixIntact(d, after, n); }
    if Intact(d, log) {
      assert n > 0 ==> IntactAt(d, log, n - 1);
      FirstBroken(d, after, n);
    }
  }

  // ---------- hashing texts ----------

  /** What two runs of texts need of a hash: it does not collide on a header as written and as read back. */
  ghost predicate SoundThrough(h: Hash, readBack: Text -> Text, ops: seq<Operation>) {
    if ops == [] then true else
    var front, op := ops[..|ops| - 1], ops[|ops| - 1];
    && SoundThrough(h, readBack, front) && Sound(op)
    && (op.Append? ==> TellsApart(h, readBack, HeaderFor(Through(h), Run(Through(h), readBack, front), op.input)))
  }

  predicate TellsApart(h: Hash, readBack: Text -> Text, header: Header) {
    var written, read := HeaderText(header), HeaderText(header.(at := readBack(header.at)));
    h(written) == h(read) ==> written == read
  }

  lemma {:induction false} ThroughSound(h: Hash, readBack: Text -> Text, ops: seq<Operation>)
    requires SoundThrough(h, readBack, ops)
    ensures SoundRun(Through(h), readBack, ops)
  {
    if ops != [] {
      var front, op := ops[..|ops| - 1], ops[|ops| - 1];
      ThroughSound(h, readBack, front);
      if op.Append? {
        var header := HeaderFor(Through(h), Run(Through(h), readBack, front), op.input);
        HeaderInjective(header, header.(at := readBack(header.at)));
      }
    }
  }

  /** A log hashed through canonical texts verifies exactly when every append was read back unchanged. */
  lemma ThroughVerifies(h: Hash, readBack: Text -> Text, ops: seq<Operation>)
    requires SoundThrough(h, readBack, ops)
    ensures Intact(Through(h), Run(Through(h), readBack, ops)) <==> Faithful(Through(h), readBack, ops)
  {
    CanonicalRespects(h);
    ThroughSound(h, readBack, ops);
    ReachableVerifies(Through(h), readBack, ops);
  }

  /** And its last hash determines all of it, if the hash does not collide on the texts of the two logs. */
  lemma ThroughTipDetermines(h: Hash, a: seq<Row>, b: seq<Row>)
    requires forall i :: 0 <= i < |a| ==> Proper(a[i].payload)
    requires forall i :: 0 <= i < |b| ==> Proper(b[i].payload)
    requires forall s, t :: s in Texts(a) && t in Texts(b) && h(s) == h(t) ==> s == t
    requires Intact(Through(h), a) && Intact(Through(h), b)
    requires a != [] && b != [] && a[|a| - 1].hash == b[|b| - 1].hash
    ensures |a| == |b| && forall i :: 0 <= i < |a| ==> a[i].header == b[i].header && a[i].hash == b[i].hash
    ensures forall i :: 0 <= i < |a| && a[i].tombstonedAt.None? && b[i].tombstonedAt.None? ==>
      Denote(a[i].payload) == Denote(b[i].payload)
  {
    CanonicalCollisionFree(h, a, b);
    TipDetermines(Through(h), a, b);
  }

  // ---------- the two logs as objects ----------

  /** The in-memory chain. */
  class AuditChain {
    const digests: Digests
    var entries: seq<Row>

    constructor (digests: Digests)
      ensures this.digests == digests && entries == []
    {
      this.digests := digests;
      entries := [];
    }

    /** A chain read back from an export, intact or not; an export carries no tombstones. */
    constructor FromExport(digests: Digests, entries: seq<Row>)
      requires forall i :: 0 <= i < |entries| ==> entries[i].tombstonedAt.None?
      ensures this.digests == digests && this.entries == entries
    {
      this.digests := digests;
      this.entries := entries;
    }

    /** An entry numbered by its position, linked to the last: it verifies exactly when everything before it does. */
    method Append(input: Input) returns (entry: Row)
      modifies this`entries
      ensures entries == old(entries) + [entry]
      ensures entry == Row(Header(|old(entries)|, input.at, input.actor, input.action, input.subject,
                                  digests.payload(input.payload), Previous(old(entries), |old(entries)|)),
                           input.payload, digests.header(entry.header), None)
      ensures Intact(digests, entries) <==> Intact(digests, old(entries))
      ensures Intact(digests, old(entries)) ==> entry.header == HeaderFor(digests, old(entries), input)
    {
      var prevHash := if entries == [] then GENESIS else entries[|entries| - 1].hash;
      var payloadHash := digests.payload(input.payload);
      var header := Header(|entries|, input.at, input.actor, input.action, input.subject, payloadHash, prevHash);
      entry := Row(header, input.payload, digests.header(header), None);
      AppendKeeps(digests, entries, entry);
      entries := entries + [entry];
    }

    method Verify() returns (v: Verification)
      ensures v.Valid? <==> Intact(digests, entries)
      ensures v.Broken? ==>
        v.at < |entries| && Intact(digests, entries[..v.at]) && Fails(digests, entries, v.at, v.reason)
    {
      v := VerifyRows(digests, entries);
    }
  }

  /** The table. */
  class AuditStore {
    const digests: Digests
    /** What the timestamp column gives back for an instant it was given. */
    const readBack: Text -> Text
    var log: seq<Row>

    constructor (digests: Digests, readBack: Text -> Text)
      ensures this.digests == digests && this.readBack == readBack && log == []
    {
      this.digests, this.readBack := digests, readBack;
      log := [];
    }

    /** The entry returned is the one written, with the instant and the payload as given; the row read back later may
        differ from it in those two. */
    method Append(input: Input, stored: Value) returns (entry: Option<Row>)
      modifies this`log
      ensures entry.Some? <==> Step(digests, readBack, old(log), Operation.Append(input, stored)).Some?
      ensures log == Step(digests, readBack, old(log), Operation.Append(input, stored)).GetOr(old(log))
      ensures entry.Some? ==>
        && (forall i :: 0 <= i < |old(log)| ==> old(log)[i].hash != entry.value.hash)
        && entry.value == Row(Header(if old(log) == [] then 0 else old(log)[|old(log)| - 1].header.number + 1,
                                     input.at, input.actor, input.action, input.subject,
                                     digests.payload(input.payload), Previous(old(log), |old(log)|)),
                              input.payload, digests.header(entry.value.header), None)
        && log == old(log) + [Row(entry.value.header.(at := readBack(input.at)), stored, entry.value.hash, None)]
      ensures entry.None? ==> log == old(log)
    {
      var number, prevHash := 0, GENESIS;
      if log != [] {
        number, prevHash := log[|log| - 1].header.number + 1, log[|log| - 1].hash;
      }
      var header := Header(number, input.at, input.actor, input.action, input.subject, digests.payload(input.payload),
                           prevHash);
      var hash := digests.header(header);
      if HashTaken(log, hash) {
        return None;
      }
      log := log + [Row(header.(at := readBack(input.at)), stored, hash, None)];
      return Some(Row(header, input.payload, hash, None));
    }

    /** The row of that number, if it is not erased yet, loses its payload and keeps everything that is hashed. */
    method Erase(number: int, at: Text) returns (ok: bool)
      modifies this`log
      ensures ok <==> Step(digests, readBack, old(log), Tombstone(number, at)).Some?
      ensures log == Step(digests, readBack, old(log), Tombstone(number, at)).GetOr(old(log))
      ensures ok <==> exists i ::
        0 <= i < |old(log)| && old(log)[i].header.number == number && old(log)[i].tombstonedAt.None?
      ensures |log| == |old(log)|
      ensures forall i :: 0 <= i < |log| ==>
        log[i] == if old(log)[i].header.number == number && old(log)[i].tombstonedAt.None?
                  then Row(old(log)[i].header, Object([]), old(log)[i].hash, Some(at))
                  else old(log)[i]
    {
      ok := false;
      var rows := log;
      for i := 0 to |log|
        invariant |rows| == |log|
        invariant ok <==> exists j :: 0 <= j < i && Erasable(log[j], number)
        invariant forall j :: 0 <= j < i ==> rows[j] == EraseWhere(log, number, at)[j]
        invariant forall j :: i <= j < |log| ==> rows[j] == log[j]
      {
        if Erasable(log[i], number) {
          rows := rows[i := Erased(log[i], at)];
          ok := true;
        }
      }
      assert rows == EraseWhere(log, number, at) by {
        assert !ok ==> rows == log;
      }
      assert !ok ==> rows == log;
      log := rows;
    }

    method Verify() returns (v: Verification)
      ensures v.Valid? <==> Intact(digests, log)
      ensures v.Broken? ==> v.at < |log| && Intact(digests, log[..v.at]) && Fails(digests, log, v.at, v.reason)
    {
      v := VerifyRows(digests, log);
    }
  }
}
