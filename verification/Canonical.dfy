/** Canonical serialisation (packages/governance/src/audit.ts, `canonicalise`).
    Texts are sequences of UTF-16 code units, as in JavaScript. Strings are printed as section 7 of RFC 8259 has
    it, with lone surrogates escaped, and keys are ordered as in section 3.2.3 of RFC 8785. A reader of such texts says
    what they mean. */
module Canonical {
  import opened Prelude

  type CodeUnit = n: int | 0 <= n < 0x1_0000
  type Text = seq<CodeUnit>

  /** The text of a finite number: it starts with a digit or a minus sign and uses only the characters of
      section 6 of RFC 8259. */
  predicate NumeralChar(c: CodeUnit) {
    48 <= c <= 57 || c == 45 || c == 43 || c == 46 || c == 101
  }

  predicate IsNumeral(t: Text) {
    t != [] && (48 <= t[0] <= 57 || t[0] == 45) && forall i :: 0 <= i < |t| ==> NumeralChar(t[i])
  }

  type Numeral = t: Text | IsNumeral(t) witness [48]

  /** A payload: what JSON can say, plus `undefined`. */
  datatype Value =
    | Undefined | Null | Bool(b: bool) | Number(numeral: Numeral) | String(s: Text)
    | Array(items: seq<Value>) | Object(fields: seq<Field>)

  datatype Field = Field(key: Text, value: Value)

  /** What a payload says, whatever order its keys came in: an `undefined` field is no field. */
  datatype Logical =
    | LNull | LBool(b: bool) | LNumber(numeral: Text) | LString(s: Text)
    | LArray(items: seq<Logical>) | LObject(members: map<Text, Logical>)

  // ---------- sizes, for termination ----------

  function Size(v: Value): nat {
    match v
    case Array(items) => 1 + SizeItems(items)
    case Object(fields) => 1 + SizeFields(fields)
    case _ => 1
  }

  function SizeItems(items: seq<Value>): nat {
    if items == [] then 0 else Size(items[0]) + 1 + SizeItems(items[1..])
  }

  function SizeFields(fields: seq<Field>): nat {
    if fields == [] then 0 else Size(fields[0].value) + 1 + SizeFields(fields[1..])
  }

  // ---------- meaning ----------

  function Denote(v: Value): Logical
    decreases Size(v)
  {
    match v
    case Undefined => LNull
    case Null => LNull
    case Bool(b) => LBool(b)
    case Number(t) => LNumber(t)
    case String(s) => LString(s)
    case Array(items) => LArray(DenoteItems(items))
    case Object(fields) => LObject(Members(fields))
  }

  function DenoteItems(items: seq<Value>): (r: seq<Logical>)
    decreases SizeItems(items)
  {
    if items == [] then [] else [Denote(items[0])] + DenoteItems(items[1..])
  }

  function Members(fields: seq<Field>): map<Text, Logical>
    decreases SizeFields(fields)
  {
    if fields == [] then map[]
    else if fields[0].value.Undefined? then Members(fields[1..])
    else Members(fields[1..])[fields[0].key := Denote(fields[0].value)]
  }

  /** Every object has each key at most once, as JavaScript objects do. */
  ghost predicate Proper(v: Value)
    decreases Size(v)
  {
    match v
    case Array(items) => ProperItems(items)
    case Object(fields) => DistinctKeys(fields) && ProperFields(fields)
    case _ => true
  }

  ghost predicate ProperItems(items: seq<Value>)
    decreases SizeItems(items)
  {
    items == [] || (Proper(items[0]) && ProperItems(items[1..]))
  }

  ghost predicate ProperFields(fields: seq<Field>)
    decreases SizeFields(fields)
  {
    fields == [] || (Proper(fields[0].value) && ProperFields(fields[1..]))
  }

  ghost predicate DistinctKeys(fields: seq<Field>) {
    forall i, j :: 0 <= i < j < |fields| ==> fields[i].key != fields[j].key
  }

  // ---------- the serialiser ----------

  const COMMA: CodeUnit := 44
  const COLON: CodeUnit := 58
  const QUOTE: CodeUnit := 34
  const BACKSLASH: CodeUnit := 92
  const OPEN_BRACKET: CodeUnit := 91
  const CLOSE_BRACKET: CodeUnit := 93
  const OPEN_BRACE: CodeUnit := 123
  const CLOSE_BRACE: CodeUnit := 125
  const NULL_TEXT: Text := [110, 117, 108, 108]
  const TRUE_TEXT: Text := [116, 114, 117, 101]
  const FALSE_TEXT: Text := [102, 97, 108, 115, 101]

  predicate High(c: CodeUnit) { 0xD800 <= c < 0xDC00 }
  predicate Low(c: CodeUnit) { 0xDC00 <= c < 0xE000 }

  function HexDigit(d: int): CodeUnit
    requires 0 <= d < 16
  {
    if d < 10 then 48 + d else 87 + d
  }

  function Escape(c: CodeUnit): Text {
    if c == 8 then [BACKSLASH, 98]
    else if c == 9 then [BACKSLASH, 116]
    else if c == 10 then [BACKSLASH, 110]
    else if c == 12 then [BACKSLASH, 102]
    else if c == 13 then [BACKSLASH, 114]
    else if c == QUOTE || c == BACKSLASH then [BACKSLASH, c]
    else if c < 32 || High(c) || Low(c) then
      [BACKSLASH, 117, HexDigit(c / 4096), HexDigit(c / 256 % 16), HexDigit(c / 16 % 16), HexDigit(c % 16)]
    else [c]
  }

  predicate Paired(s: Text) {
    |s| >= 2 && High(s[0]) && Low(s[1])
  }

  /** The inside of `JSON.stringify(s)`: a surrogate pair is copied, a lone surrogate is escaped. */
  function Body(s: Text): Text {
    if s == [] then []
    else if Paired(s) then [s[0], s[1]] + Body(s[2..])
    else Escape(s[0]) + Body(s[1..])
  }

  function Quoted(s: Text): Text {
    [QUOTE] + Body(s) + [QUOTE]
  }

  /** `a < b` on strings: by UTF-16 code unit. */
  predicate Less(a: Text, b: Text) {
    b != [] && (a == [] || a[0] < b[0] || (a[0] == b[0] && Less(a[1..], b[1..])))
  }

  function Defined(fields: seq<Field>): (r: seq<Field>)
    ensures SizeFields(r) <= SizeFields(fields)
    ensures forall f :: f in r <==> f in fields && !f.value.Undefined?
  {
    if fields == [] then []
    else
      assert fields == [fields[0]] + fields[1..];
      if fields[0].value.Undefined? then Defined(fields[1..])
      else
        assert ([fields[0]] + Defined(fields[1..]))[1..] == Defined(fields[1..]);
        [fields[0]] + Defined(fields[1..])
  }

  function Insert(f: Field, sorted: seq<Field>): (r: seq<Field>)
    ensures SizeFields(r) == Size(f.value) + 1 + SizeFields(sorted)
    ensures forall g :: g in r <==> g == f || g in sorted
  {
    if sorted == [] then [f]
    else
      assert sorted == [sorted[0]] + sorted[1..];
      if Less(sorted[0].key, f.key) then
        var rest := Insert(f, sorted[1..]);
        assert ([sorted[0]] + rest)[1..] == rest;
        [sorted[0]] + rest
      else
        assert ([f] + sorted)[1..] == sorted;
        [f] + sorted
  }

  function SortByKey(fields: seq<Field>): (r: seq<Field>)
    ensures SizeFields(r) == SizeFields(fields)
    ensures forall f :: f in r <==> f in fields
  {
    if fields == [] then []
    else
      assert fields == [fields[0]] + fields[1..];
      Insert(fields[0], SortByKey(fields[1..]))
  }

  function Canonicalise(v: Value): Text
    decreases Size(v), 0
  {
    match v
    case Undefined => NULL_TEXT
    case Null => NULL_TEXT
    case Bool(b) => if b then TRUE_TEXT else FALSE_TEXT
    case Number(t) => t
    case String(s) => Quoted(s)
    case Array(items) => [OPEN_BRACKET] + ItemsText(items) + [CLOSE_BRACKET]
    case Object(fields) => [OPEN_BRACE] + FieldsText(SortByKey(Defined(fields))) + [CLOSE_BRACE]
  }

  /** `items.map(canonicalise).join(",")` */
  function ItemsText(items: seq<Value>): Text
    decreases SizeItems(items)
  {
    if items == [] then [] else Canonicalise(items[0]) + MoreItems(items[1..])
  }

  function MoreItems(items: seq<Value>): Text
    decreases SizeItems(items)
  {
    if items == [] then [] else [COMMA] + Canonicalise(items[0]) + MoreItems(items[1..])
  }

  function FieldText(f: Field): Text
    decreases Size(f.value), 1
  {
    Quoted(f.key) + [COLON] + Canonicalise(f.value)
  }

  function FieldsText(fields: seq<Field>): Text
    decreases SizeFields(fields)
  {
    if fields == [] then [] else FieldText(fields[0]) + MoreFields(fields[1..])
  }

  function MoreFields(fields: seq<Field>): Text
    decreases SizeFields(fields)
  {
    if fields == [] then [] else [COMMA] + FieldText(fields[0]) + MoreFields(fields[1..])
  }

  // ---------- what a reader makes of the text ----------

  /** What a text says when read as JSON, with the members of an object in the order they stand in. */
  datatype Parsed =
    | PNull | PBool(b: bool) | PNumber(numeral: Text) | PString(s: Text)
    | PArray(items: seq<Parsed>) | PObject(members: seq<Member>)

  datatype Member = Member(key: Text, value: Parsed)

  type Reading<T> = Option<(T, Text)>

  function HexValue(c: CodeUnit): Option<int> {
    if 48 <= c <= 57 then Some(c - 48) else if 97 <= c <= 102 then Some(c - 87) else None
  }

  /** Four lower-case hexadecimal digits. */
  function ReadHex(t: Text): (r: Reading<CodeUnit>)
    ensures r.Some? ==> |r.value.1| < |t|
  {
    if |t| < 4 then None else
    match (HexValue(t[0]), HexValue(t[1]), HexValue(t[2]), HexValue(t[3]))
    case (Some(a), Some(b), Some(c), Some(d)) => if 0 <= a < 16 && 0 <= b < 16 && 0 <= c < 16 && 0 <= d < 16
      then Some((((a * 16 + b) * 16 + c) * 16 + d, t[4..])) else None
    case _ => None
  }

  function Unescape(c: CodeUnit): Option<CodeUnit> {
    if c == 34 || c == 92 || c == 47 then Some(c)
    else if c == 98 then Some(8)
    else if c == 102 then Some(12)
    else if c == 110 then Some(10)
    else if c == 114 then Some(13)
    else if c == 116 then Some(9)
    else None
  }

  /** One character of a string, as in section 7 of RFC 8259. */
  function ReadCharacter(t: Text): (r: Reading<CodeUnit>)
    ensures r.Some? ==> |r.value.1| < |t|
  {
    if t == [] || t[0] < 32 || t[0] == 34 then None
    else if t[0] != 92 then Some((t[0], t[1..]))
    else if |t| == 1 then None
    else if t[1] == 117 then ReadHex(t[2..])
    else match Unescape(t[1])
      case Some(c) => Some((c, t[2..]))
      case None => None
  }

  /** The rest of a string, after its opening quotation mark. */
  function ReadString(t: Text): (r: Reading<Text>)
    ensures r.Some? ==> |r.value.1| < |t|
    decreases |t|
  {
    if t != [] && t[0] == 34 then Some(([], t[1..])) else
    match ReadCharacter(t)
    case None => None
    case Some(first) =>
      match ReadString(first.1)
      case None => None
      case Some(more) => Some(([first.0] + more.0, more.1))
  }

  /** How many characters of a numeral the text starts with. */
  function NumeralEnd(t: Text): (n: nat)
    ensures n <= |t|
  {
    if t == [] || !NumeralChar(t[0]) then 0 else 1 + NumeralEnd(t[1..])
  }

  function ReadWord(t: Text, word: Text, v: Parsed): (r: Reading<Parsed>)
    requires word != []
    ensures r.Some? ==> |r.value.1| < |t|
  {
    if word <= t then Some((v, t[|word|..])) else None
  }

  /** A value, and the text after it. */
  function ReadValue(t: Text): (r: Reading<Parsed>)
    ensures r.Some? ==> |r.value.1| < |t|
    decreases |t|, 0
  {
    if t == [] then None
    else if t[0] == 110 then ReadWord(t, [110, 117, 108, 108], PNull)
    else if t[0] == 116 then ReadWord(t, [116, 114, 117, 101], PBool(true))
    else if t[0] == 102 then ReadWord(t, [102, 97, 108, 115, 101], PBool(false))
    else if t[0] == 34 then
      match ReadString(t[1..])
      case None => None
      case Some(r) => Some((PString(r.0), r.1))
    else if t[0] == 91 then ReadArray(t[1..])
    else if t[0] == 123 then ReadObject(t[1..])
    else if NumeralEnd(t) == 0 then None
    else Some((PNumber(t[..NumeralEnd(t)]), t[NumeralEnd(t)..]))
  }

  /** The rest of an array, after its opening bracket, and of an object, after its opening brace. */
  function ReadArray(t: Text): (r: Reading<Parsed>)
    ensures r.Some? ==> |r.value.1| < |t|
    decreases |t|, 2
  {
    if t != [] && t[0] == 93 then Some((PArray([]), t[1..])) else
    match ReadItems(t)
    case None => None
    case Some(r) => Some((PArray(r.0), r.1))
  }

  function ReadObject(t: Text): (r: Reading<Parsed>)
    ensures r.Some? ==> |r.value.1| < |t|
    decreases |t|, 3
  {
    if t != [] && t[0] == 125 then Some((PObject([]), t[1..])) else
    match ReadMembers(t)
    case None => None
    case Some(r) => Some((PObject(r.0), r.1))
  }

  /** Values with commas between them, up to a closing bracket. */
  function ReadItems(t: Text): (r: Reading<seq<Parsed>>)
    ensures r.Some? ==> |r.value.1| < |t|
    decreases |t|, 1
  {
    match ReadValue(t)
    case None => None
    case Some(first) =>
      if first.1 == [] then None
      else if first.1[0] == 93 then Some(([first.0], first.1[1..]))
      else if first.1[0] != 44 then None
      else match ReadItems(first.1[1..])
        case None => None
        case Some(more) => Some(([first.0] + more.0, more.1))
  }

  /** A key, a colon and a value. */
  function ReadMember(t: Text): (r: Reading<Member>)
    ensures r.Some? ==> |r.value.1| < |t|
    decreases |t|, 1
  {
    if t == [] || t[0] != 34 then None else
    match ReadString(t[1..])
    case None => None
    case Some(key) =>
      if key.1 == [] || key.1[0] != 58 then None else
      match ReadValue(key.1[1..])
      case None => None
      case Some(v) => Some((Member(key.0, v.0), v.1))
  }

  /** Members with commas between them, up to a closing brace. */
  function ReadMembers(t: Text): (r: Reading<seq<Member>>)
    ensures r.Some? ==> |r.value.1| < |t|
    decreases |t|, 2
  {
    match ReadMember(t)
    case None => None
    case Some(first) =>
      if first.1 == [] then None
      else if first.1[0] == 125 then Some(([first.0], first.1[1..]))
      else if first.1[0] != 44 then None
      else match ReadMembers(first.1[1..])
        case None => None
        case Some(more) => Some(([first.0] + more.0, more.1))
  }

  // ---------- reading back a string ----------

  lemma Assoc(a: Text, b: Text, c: Text)
    ensures a + b + c == a + (b + c)
  {
  }

  lemma Cancel(a: Text, b: Text, r: Text, s: Text)
    requires a + r == b + s && |a| == |b|
    ensures a == b && r == s
  {
    var t := a + r;
    assert t[..|a|] == a && t[|a|..] == r;
    assert t == b + s;
    assert t[..|b|] == b && t[|b|..] == s;
  }

  lemma HexReads(c: CodeUnit, r: Text)
    ensures ReadHex([HexDigit(c / 4096), HexDigit(c / 256 % 16), HexDigit(c / 16 % 16), HexDigit(c % 16)] + r)
         == Some((c, r))
  {
    var digits := [HexDigit(c / 4096), HexDigit(c / 256 % 16), HexDigit(c / 16 % 16), HexDigit(c % 16)];
    Digits(c);
    assert (digits + r)[4..] == r;
  }

  lemma Digits(a: nat)
    ensures a == ((a / 4096 * 16 + a / 256 % 16) * 16 + a / 16 % 16) * 16 + a % 16
  {
    assert a / 256 / 16 == a / 4096;
    assert a / 16 / 16 == a / 256;
  }

  /** One character is read back as printed; a plain one may be a surrogate, if what stands for it says so. */
  lemma EscapeReads(c: CodeUnit, r: Text)
    ensures ReadCharacter(Escape(c) + r) == Some((c, r)) && (Escape(c) + r)[0] != QUOTE
  {
    var t := Escape(c) + r;
    assert t[0] == Escape(c)[0];
    if |Escape(c)| == 2 {
      assert t[1] == Escape(c)[1] && t[2..] == r;
    } else if |Escape(c)| == 6 {
      assert t[1] == Escape(c)[1];
      assert t[2..] == Escape(c)[2..] + r;
      HexReads(c, r);
    } else {
      assert t[1..] == r;
    }
  }

  lemma CharacterFirst(t: Text, c: CodeUnit, rest: Text, s: Text, r: Text)
    requires t != [] && t[0] != QUOTE && ReadCharacter(t) == Some((c, rest)) && ReadString(rest) == Some((s, r))
    ensures ReadString(t) == Some(([c] + s, r))
  {
  }

  lemma PairShape(a: CodeUnit, b: CodeUnit, t: Text, r: Text)
    ensures [a, b] + t + r == [a] + ([b] + (t + r))
  {
  }

  lemma Parts(s: Text)
    requires |s| >= 2
    ensures s == [s[0]] + ([s[1]] + s[2..])
  {
    var rest := [s[1]] + s[2..];
    assert rest == s[1..];
    assert s == [s[0]] + s[1..];
  }

  lemma PlainReads(c: CodeUnit, r: Text)
    requires c >= 32 && c != QUOTE && c != BACKSLASH
    ensures ReadCharacter([c] + r) == Some((c, r))
  {
    assert ([c] + r)[1..] == r;
  }

  lemma {:induction false} BodyReads(s: Text, r: Text)
    ensures ReadString(Body(s) + ([QUOTE] + r)) == Some((s, r))
    decreases |s|
  {
    var q := [QUOTE] + r;
    if s == [] {
      assert Body(s) + q == q && q[1..] == r;
    } else if Paired(s) {
      var t := Body(s[2..]) + q;
      BodyReads(s[2..], r);
      PlainReads(s[1], t);
      CharacterFirst([s[1]] + t, s[1], t, s[2..], r);
      PlainReads(s[0], [s[1]] + t);
      CharacterFirst([s[0]] + ([s[1]] + t), s[0], [s[1]] + t, [s[1]] + s[2..], r);
      PairShape(s[0], s[1], Body(s[2..]), q);
      Parts(s);
    } else {
      var t := Body(s[1..]) + q;
      BodyReads(s[1..], r);
      Assoc(Escape(s[0]), Body(s[1..]), q);
      EscapeReads(s[0], t);
      CharacterFirst(Escape(s[0]) + t, s[0], t, s[1..], r);
      assert s == [s[0]] + s[1..];
    }
  }

  lemma QuotedReads(s: Text, r: Text)
    ensures (Quoted(s) + r)[0] == QUOTE && ReadString((Quoted(s) + r)[1..]) == Some((s, r))
  {
    BodyReads(s, r);
    assert (Quoted(s) + r)[1..] == Body(s) + ([QUOTE] + r);
  }

  /** What stands for one printed character is a prefix code, and a printed string determines itself and its end. */
  lemma EscapePrefix(a: CodeUnit, b: CodeUnit, r: Text, s: Text)
    requires Escape(a) + r == Escape(b) + s
    ensures a == b && r == s
  {
    EscapeReads(a, r);
    EscapeReads(b, s);
  }

  lemma BodyPrefix(a: Text, b: Text, r: Text, s: Text)
    requires Body(a) + ([QUOTE] + r) == Body(b) + ([QUOTE] + s)
    ensures a == b && r == s
  {
    BodyReads(a, r);
    BodyReads(b, s);
  }

  /** A character stands for itself unless it has to be escaped, and has the short escape where there is one. */
  lemma EscapeShortest(c: CodeUnit)
    ensures |Escape(c)| == 1 <==> c >= 32 && c != 34 && c != 92 && !(0xD800 <= c < 0xE000)
    ensures |Escape(c)| == 2 <==> c in {8, 9, 10, 12, 13, 34, 92}
    ensures |Escape(c)| in {1, 2, 6}
  {
  }

  // ---------- reading back a value ----------

  /** What can follow a value: nothing, a comma or a closing bracket. */
  predicate Stops(r: Text) {
    r == [] || r[0] in {COMMA, CLOSE_BRACKET, CLOSE_BRACE}
  }

  lemma {:induction false} NumeralReads(a: Text, r: Text)
    requires (forall i :: 0 <= i < |a| ==> NumeralChar(a[i])) && Stops(r)
    ensures NumeralEnd(a + r) == |a|
  {
    if a == [] {
      assert a + r == r;
    } else {
      NumeralReads(a[1..], r);
      assert (a + r)[1..] == a[1..] + r;
    }
  }

  /** A numeral ends where a stop character begins. */
  lemma NumeralPrefix(a: Text, b: Text, r: Text, s: Text)
    requires a + r == b + s && Stops(r) && Stops(s) && IsNumeral(a) && IsNumeral(b)
    ensures a == b && r == s
  {
    NumeralReads(a, r);
    NumeralReads(b, s);
    Cancel(a, b, r, s);
  }

  /** What is to be read: the same value, its defined fields in the order they are printed in. */
  function Form(v: Value): Parsed
    decreases Size(v), 0
  {
    match v
    case Undefined => PNull
    case Null => PNull
    case Bool(b) => PBool(b)
    case Number(t) => PNumber(t)
    case String(s) => PString(s)
    case Array(items) => PArray(Forms(items))
    case Object(fields) => PObject(MemberForms(SortByKey(Defined(fields))))
  }

  function Forms(items: seq<Value>): seq<Parsed>
    decreases SizeItems(items)
  {
    if items == [] then [] else [Form(items[0])] + Forms(items[1..])
  }

  function MemberForms(fields: seq<Field>): seq<Member>
    decreases SizeFields(fields)
  {
    if fields == [] then [] else [Member(fields[0].key, Form(fields[0].value))] + MemberForms(fields[1..])
  }

  /** The first character announces the kind of value, and never closes one. */
  lemma FirstCharacter(v: Value)
    ensures Canonicalise(v) != [] && Canonicalise(v)[0] !in {COMMA, CLOSE_BRACKET, CLOSE_BRACE}
  {
  }

  /** The text of a value, whatever may follow it, is read as that value and no more. */
  lemma {:induction false} ValueReads(v: Value, r: Text)
    requires Stops(r)
    ensures ReadValue(Canonicalise(v) + r) == Some((Form(v), r))
    decreases Size(v), 0
  {
    var t := Canonicalise(v) + r;
    match v {
      case Undefined => assert t[4..] == r && NULL_TEXT <= t;
      case Null => assert t[4..] == r && NULL_TEXT <= t;
      case Bool(b) =>
        if b { assert t[4..] == r && TRUE_TEXT <= t; } else { assert t[5..] == r && FALSE_TEXT <= t; }
      case Number(a) =>
        NumeralReads(a, r);
        assert t[..|a|] == a && t[|a|..] == r;
      case String(s) => QuotedReads(s, r);
      case Array(items) => ArrayReads(items, r);
      case Object(fields) => ObjectReads(fields, r);
    }
  }

  lemma OpenReads(inside: Text)
    ensures ReadValue([OPEN_BRACKET] + inside) == ReadArray(inside)
    ensures ReadValue([OPEN_BRACE] + inside) == ReadObject(inside)
  {
    assert ([OPEN_BRACKET] + inside)[1..] == inside && ([OPEN_BRACE] + inside)[1..] == inside;
  }

  lemma EmptyReads(r: Text)
    ensures ReadArray([CLOSE_BRACKET] + r) == Some((PArray([]), r))
    ensures ReadObject([CLOSE_BRACE] + r) == Some((PObject([]), r))
  {
    assert ([CLOSE_BRACKET] + r)[1..] == r && ([CLOSE_BRACE] + r)[1..] == r;
  }

  lemma Between(open: CodeUnit, t: Text, close: CodeUnit, r: Text)
    ensures [open] + t + [close] + r == [open] + (t + ([close] + r))
  {
  }

  lemma {:induction false} ArrayReads(items: seq<Value>, r: Text)
    requires Stops(r)
    ensures ReadValue(Canonicalise(Array(items)) + r) == Some((PArray(Forms(items)), r))
    decreases SizeItems(items), 2
  {
    var inside := ItemsText(items) + ([CLOSE_BRACKET] + r);
    Between(OPEN_BRACKET, ItemsText(items), CLOSE_BRACKET, r);
    OpenReads(inside);
    if items == [] {
      assert inside == [CLOSE_BRACKET] + r;
      EmptyReads(r);
    } else {
      ItemsRead(items, r);
      ItemsStart(items, [CLOSE_BRACKET] + r);
    }
  }

  lemma ItemsStart(items: seq<Value>, r: Text)
    requires items != []
    ensures ItemsText(items) + r != [] && (ItemsText(items) + r)[0] != CLOSE_BRACKET
  {
    FirstCharacter(items[0]);
  }

  lemma {:induction false} ObjectReads(fields: seq<Field>, r: Text)
    requires Stops(r)
    ensures ReadValue(Canonicalise(Object(fields)) + r) == Some((Form(Object(fields)), r))
    decreases SizeFields(fields), 2
  {
    var fs := SortByKey(Defined(fields));
    var inside := FieldsText(fs) + ([CLOSE_BRACE] + r);
    Between(OPEN_BRACE, FieldsText(fs), CLOSE_BRACE, r);
    OpenReads(inside);
    if fs == [] {
      assert inside == [CLOSE_BRACE] + r;
      EmptyReads(r);
    } else {
      FieldsRead(fs, r);
      FieldsStart(fs, [CLOSE_BRACE] + r);
    }
  }

  lemma FieldsStart(fields: seq<Field>, r: Text)
    requires fields != []
    ensures FieldsText(fields) + r != [] && (FieldsText(fields) + r)[0] == QUOTE
  {
    assert Quoted(fields[0].key)[0] == QUOTE && FieldText(fields[0])[0] == QUOTE;
  }

  lemma MoreItemsText(items: seq<Value>)
    ensures MoreItems(items) == if items == [] then [] else [COMMA] + ItemsText(items)
  {
    if items != [] { Assoc([COMMA], Canonicalise(items[0]), MoreItems(items[1..])); }
  }

  lemma LastItem(t: Text, v: Parsed, r: Text)
    requires ReadValue(t) == Some((v, [CLOSE_BRACKET] + r))
    ensures ReadItems(t) == Some(([v], r))
  {
    assert ([CLOSE_BRACKET] + r)[1..] == r;
  }

  lemma NextItem(t: Text, v: Parsed, more: Text, vs: seq<Parsed>, r: Text)
    requires ReadValue(t) == Some((v, [COMMA] + more)) && ReadItems(more) == Some((vs, r))
    ensures ReadItems(t) == Some(([v] + vs, r))
  {
    assert ([COMMA] + more)[1..] == more;
  }

  lemma {:induction false} ItemsRead(items: seq<Value>, r: Text)
    requires items != []
    ensures ReadItems(ItemsText(items) + ([CLOSE_BRACKET] + r)) == Some((Forms(items), r))
    decreases SizeItems(items), 1
  {
    var close := [CLOSE_BRACKET] + r;
    var rest := MoreItems(items[1..]) + close;
    var t := Canonicalise(items[0]) + rest;
    Assoc(Canonicalise(items[0]), MoreItems(items[1..]), close);
    MoreItemsText(items[1..]);
    if items[1..] == [] {
      assert rest == close;
      ValueReads(items[0], rest);
      LastItem(t, Form(items[0]), r);
      assert Forms(items[1..]) == [] && Forms(items) == [Form(items[0])];
    } else {
      Assoc([COMMA], ItemsText(items[1..]), close);
      ValueReads(items[0], rest);
      ItemsRead(items[1..], r);
      NextItem(t, Form(items[0]), ItemsText(items[1..]) + close, Forms(items[1..]), r);
    }
  }

  lemma MoreFieldsText(fields: seq<Field>)
    ensures MoreFields(fields) == if fields == [] then [] else [COMMA] + FieldsText(fields)
  {
    if fields != [] { Assoc([COMMA], FieldText(fields[0]), MoreFields(fields[1..])); }
  }

  lemma LastMember(t: Text, m: Member, r: Text)
    requires ReadMember(t) == Some((m, [CLOSE_BRACE] + r))
    ensures ReadMembers(t) == Some(([m], r))
  {
    assert ([CLOSE_BRACE] + r)[1..] == r;
  }

  lemma NextMember(t: Text, m: Member, more: Text, ms: seq<Member>, r: Text)
    requires ReadMember(t) == Some((m, [COMMA] + more)) && ReadMembers(more) == Some((ms, r))
    ensures ReadMembers(t) == Some(([m] + ms, r))
  {
    assert ([COMMA] + more)[1..] == more;
  }

  lemma {:induction false} FieldsRead(fields: seq<Field>, r: Text)
    requires fields != []
    ensures ReadMembers(FieldsText(fields) + ([CLOSE_BRACE] + r)) == Some((MemberForms(fields), r))
    decreases SizeFields(fields), 1
  {
    var close := [CLOSE_BRACE] + r;
    var rest := MoreFields(fields[1..]) + close;
    var t, first := FieldText(fields[0]) + rest, Member(fields[0].key, Form(fields[0].value));
    Assoc(FieldText(fields[0]), MoreFields(fields[1..]), close);
    MoreFieldsText(fields[1..]);
    if fields[1..] == [] {
      assert rest == close;
      FieldReads(fields[0], rest);
      LastMember(t, first, r);
      assert MemberForms(fields[1..]) == [] && MemberForms(fields) == [first];
    } else {
      Assoc([COMMA], FieldsText(fields[1..]), close);
      FieldReads(fields[0], rest);
      FieldsRead(fields[1..], r);
      NextMember(t, first, FieldsText(fields[1..]) + close, MemberForms(fields[1..]), r);
    }
  }

  lemma FieldShape(f: Field, r: Text)
    ensures FieldText(f) + r == Quoted(f.key) + ([COLON] + (Canonicalise(f.value) + r))
  {
    Assoc(Quoted(f.key), [COLON], Canonicalise(f.value));
    Assoc(Quoted(f.key), [COLON] + Canonicalise(f.value), r);
    Assoc([COLON], Canonicalise(f.value), r);
  }

  lemma MemberReads(t: Text, key: Text, more: Text, v: Parsed, r: Text)
    requires t != [] && t[0] == QUOTE && ReadString(t[1..]) == Some((key, [COLON] + more))
    requires ReadValue(more) == Some((v, r))
    ensures ReadMember(t) == Some((Member(key, v), r))
  {
    assert ([COLON] + more)[1..] == more;
  }

  lemma {:induction false} FieldReads(f: Field, r: Text)
    requires Stops(r)
    ensures ReadMember(FieldText(f) + r) == Some((Member(f.key, Form(f.value)), r))
    decreases Size(f.value), 1
  {
    var more := Canonicalise(f.value) + r;
    FieldShape(f, r);
    QuotedReads(f.key, [COLON] + more);
    ValueReads(f.value, r);
    MemberReads(Quoted(f.key) + ([COLON] + more), f.key, more, Form(f.value), r);
  }

  // ---------- what was read says what was printed ----------

  function Says(p: Parsed): Logical {
    match p
    case PNull => LNull
    case PBool(b) => LBool(b)
    case PNumber(t) => LNumber(t)
    case PString(s) => LString(s)
    case PArray(items) => LArray(SaysItems(items))
    case PObject(members) => LObject(SaysMembers(members))
  }

  function SaysItems(items: seq<Parsed>): seq<Logical> {
    if items == [] then [] else [Says(items[0])] + SaysItems(items[1..])
  }

  function SaysMembers(members: seq<Member>): map<Text, Logical> {
    if members == [] then map[] else SaysMembers(members[1..])[members[0].key := Says(members[0].value)]
  }

  /** One string comes before another: it is a beginning of it, or has the smaller code unit where they first differ. */
  ghost predicate Precedes(a: Text, b: Text) {
    exists i :: DiffersAt(a, b, i)
  }

  ghost predicate DiffersAt(a: Text, b: Text, i: int) {
    0 <= i <= |a| && i < |b| && a[..i] == b[..i] && (i == |a| || a[i] < b[i])
  }

  lemma {:induction false} LessExactly(a: Text, b: Text)
    ensures Less(a, b) <==> Precedes(a, b)
  {
    if a == [] {
      if b != [] { assert DiffersAt(a, b, 0); }
    } else if b != [] {
      if a[0] < b[0] { assert DiffersAt(a, b, 0); }
      if a[0] == b[0] {
        LessExactly(a[1..], b[1..]);
        if i :| DiffersAt(a[1..], b[1..], i) {
          assert a[..i + 1] == [a[0]] + a[1..][..i] && b[..i + 1] == [b[0]] + b[1..][..i];
          assert DiffersAt(a, b, i + 1);
        }
        if i :| DiffersAt(a, b, i) {
          assert i > 0 && a[1..][..i - 1] == a[..i][1..] && b[1..][..i - 1] == b[..i][1..];
          assert DiffersAt(a[1..], b[1..], i - 1);
        }
      } else if i :| DiffersAt(a, b, i) {
        assert i > 0 ==> a[..i][0] == b[..i][0];
      }
    }
  }

  /** Every object's keys stand in strictly ascending order, at every depth. */
  ghost predicate Ascends(p: Parsed) {
    match p
    case PArray(items) => forall i :: 0 <= i < |items| ==> Ascends(items[i])
    case PObject(members) =>
      && (forall i, j :: 0 <= i < j < |members| ==> Precedes(members[i].key, members[j].key))
      && forall i :: 0 <= i < |members| ==> Ascends(members[i].value)
    case _ => true
  }

  // ---------- key order does not matter ----------

  ghost predicate AllDefined(fields: seq<Field>) {
    forall f :: f in fields ==> !f.value.Undefined?
  }

  /** Strictly increasing keys. */
  ghost predicate Sorted(fields: seq<Field>) {
    forall i, j :: 0 <= i < j < |fields| ==> Less(fields[i].key, fields[j].key)
  }

  lemma {:induction false} LessTotal(a: Text, b: Text)
    ensures !Less(a, a)
    ensures Less(a, b) ==> !Less(b, a)
    ensures Less(a, b) || Less(b, a) || a == b
  {
    if a != [] {
      if b != [] {
        LessTotal(a[1..], b[1..]);
        assert a == [a[0]] + a[1..] && b == [b[0]] + b[1..];
      } else {
        LessTotal(a[1..], []);
      }
    }
  }

  lemma {:induction false} LessTrans(a: Text, b: Text, c: Text)
    requires Less(a, b) && Less(b, c)
    ensures Less(a, c)
  {
    if a != [] && a[0] == b[0] && b[0] == c[0] {
      LessTrans(a[1..], b[1..], c[1..]);
    }
  }

  lemma {:induction false} InsertSorted(f: Field, sorted: seq<Field>)
    requires Sorted(sorted) && forall g :: g in sorted ==> g.key != f.key
    ensures Sorted(Insert(f, sorted))
  {
    if sorted != [] {
      LessTotal(sorted[0].key, f.key);
      if Less(sorted[0].key, f.key) {
        InsertSorted(f, sorted[1..]);
        var rest := Insert(f, sorted[1..]);
        forall i | 0 <= i < |rest| ensures Less(sorted[0].key, rest[i].key) {
          assert rest[i] in rest;
        }
      } else {
        forall i | 0 <= i < |sorted| ensures Less(f.key, sorted[i].key) {
          if i > 0 { LessTrans(f.key, sorted[0].key, sorted[i].key); }
        }
      }
    }
  }

  lemma {:induction false} SortSorted(fields: seq<Field>)
    requires DistinctKeys(fields)
    ensures Sorted(SortByKey(fields))
  {
    if fields != [] {
      SortSorted(fields[1..]);
      InsertSorted(fields[0], SortByKey(fields[1..]));
    }
  }

  lemma {:induction false} DefinedDistinct(fields: seq<Field>)
    requires DistinctKeys(fields)
    ensures DistinctKeys(Defined(fields))
  {
    if fields != [] {
      DefinedDistinct(fields[1..]);
      assert forall f :: f in fields[1..] ==> f.key != fields[0].key;
    }
  }

  /** Membership in the meaning of a field list: one defined field per key. */
  lemma MembersExact(fields: seq<Field>)
    requires DistinctKeys(fields)
    ensures forall k :: k in Members(fields) <==> exists f :: f in fields && f.key == k && !f.value.Undefined?
    ensures forall f :: f in fields && !f.value.Undefined? ==>
      f.key in Members(fields) && Members(fields)[f.key] == Denote(f.value)
  {
    forall k ensures k in Members(fields) <==> exists f :: f in fields && f.key == k && !f.value.Undefined? {
      MemberKey(fields, k);
    }
    forall f | f in fields && !f.value.Undefined?
      ensures f.key in Members(fields) && Members(fields)[f.key] == Denote(f.value)
    {
      MemberValue(fields, f);
    }
  }

  lemma {:induction false} MemberKey(fields: seq<Field>, k: Text)
    ensures k in Members(fields) <==> exists f :: f in fields && f.key == k && !f.value.Undefined?
  {
    if fields != [] {
      MemberKey(fields[1..], k);
      assert fields == [fields[0]] + fields[1..];
    }
  }

  lemma {:induction false} MemberValue(fields: seq<Field>, f: Field)
    requires DistinctKeys(fields) && f in fields && !f.value.Undefined?
    ensures f.key in Members(fields) && Members(fields)[f.key] == Denote(f.value)
  {
    assert fields == [fields[0]] + fields[1..];
    if f != fields[0] {
      MemberValue(fields[1..], f);
      assert f.key != fields[0].key;
    }
  }

  lemma {:induction false} ProperFieldsAll(fields: seq<Field>)
    ensures ProperFields(fields) <==> forall f :: f in fields ==> Proper(f.value)
  {
    if fields != [] {
      ProperFieldsAll(fields[1..]);
      assert fields == [fields[0]] + fields[1..];
    }
  }

  /** Dropping undefined fields and sorting changes nothing a payload says. */
  lemma SortedForm(fields: seq<Field>)
    requires DistinctKeys(fields) && ProperFields(fields)
    ensures var fs := SortByKey(Defined(fields));
            Sorted(fs) && AllDefined(fs) && ProperFields(fs) && Members(fs) == Members(fields)
  {
    var fs := SortByKey(Defined(fields));
    DefinedDistinct(fields);
    SortSorted(Defined(fields));
    ProperFieldsAll(fields);
    ProperFieldsAll(fs);
    SortedDistinct(fs);
    MembersExact(fields);
    MembersExact(fs);
  }

  lemma SortedDistinct(fields: seq<Field>)
    requires Sorted(fields)
    ensures DistinctKeys(fields)
  {
    forall i, j | 0 <= i < j < |fields| ensures fields[i].key != fields[j].key {
      LessTotal(fields[i].key, fields[j].key);
    }
  }

  /** Payloads that say the same are printed the same. */
  lemma {:induction false} OrderIndependent(x: Value, y: Value)
    requires Denote(x) == Denote(y) && Proper(x) && Proper(y)
    ensures Canonicalise(x) == Canonicalise(y)
    decreases Size(x)
  {
    match x {
      case Array(items) =>
        SameItems(items, y.items);
      case Object(fields) =>
        SortedForm(fields);
        SortedForm(y.fields);
        SameFields(SortByKey(Defined(fields)), SortByKey(Defined(y.fields)));
      case _ =>
    }
  }

  lemma {:induction false} SameItems(xs: seq<Value>, ys: seq<Value>)
    requires DenoteItems(xs) == DenoteItems(ys) && ProperItems(xs) && ProperItems(ys)
    ensures ItemsText(xs) == ItemsText(ys) && MoreItems(xs) == MoreItems(ys)
    decreases SizeItems(xs)
  {
    if xs != [] {
      assert DenoteItems(xs)[0] == Denote(xs[0]) && DenoteItems(ys)[0] == Denote(ys[0]);
      assert DenoteItems(xs)[1..] == DenoteItems(xs[1..]) && DenoteItems(ys)[1..] == DenoteItems(ys[1..]);
      OrderIndependent(xs[0], ys[0]);
      SameItems(xs[1..], ys[1..]);
    }
  }

  /** The meaning of the rest of a list is the meaning of the list without its first key. */
  lemma RestMembers(fs: seq<Field>)
    requires fs != [] && DistinctKeys(fs) && AllDefined(fs)
    ensures fs[0].key in Members(fs) && Members(fs)[fs[0].key] == Denote(fs[0].value)
    ensures Members(fs[1..]) == Members(fs) - {fs[0].key}
  {
    assert fs[0] in fs;
    KeyAbsent(fs[1..], fs[0].key);
  }

  lemma {:induction false} KeyAbsent(fs: seq<Field>, k: Text)
    requires forall i :: 0 <= i < |fs| ==> fs[i].key != k
    ensures k !in Members(fs)
  {
    if fs != [] {
      KeyAbsent(fs[1..], k);
    }
  }

  lemma {:induction false} SameFields(fs: seq<Field>, gs: seq<Field>)
    requires Members(fs) == Members(gs) && ProperFields(fs) && ProperFields(gs)
    requires Sorted(fs) && Sorted(gs) && AllDefined(fs) && AllDefined(gs)
    ensures FieldsText(fs) == FieldsText(gs) && MoreFields(fs) == MoreFields(gs)
    decreases SizeFields(fs)
  {
    SortedDistinct(fs);
    SortedDistinct(gs);
    if fs != [] { RestMembers(fs); }
    if gs != [] { RestMembers(gs); }
    if fs != [] {
      assert gs != [] by { MembersExact(gs); }
      SameLeast(fs, gs);
      OrderIndependent(fs[0].value, gs[0].value);
      SameFields(fs[1..], gs[1..]);
    }
  }

  /** Sorted lists with the same keys start with the same key. */
  lemma SameLeast(fs: seq<Field>, gs: seq<Field>)
    requires fs != [] && gs != [] && Sorted(fs) && Sorted(gs) && AllDefined(fs) && AllDefined(gs)
    requires Members(fs) == Members(gs)
    ensures fs[0].key == gs[0].key && Denote(fs[0].value) == Denote(gs[0].value)
  {
    SortedDistinct(fs);
    SortedDistinct(gs);
    MembersExact(fs);
    MembersExact(gs);
    var i :| 0 <= i < |gs| && gs[i].key == fs[0].key;
    var j :| 0 <= j < |fs| && fs[j].key == gs[0].key;
    LessTotal(fs[0].key, gs[0].key);
  }

  lemma {:induction false} FormSays(v: Value)
    requires Proper(v)
    ensures Says(Form(v)) == Denote(v) && Ascends(Form(v))
    decreases Size(v), 0
  {
    match v {
      case Array(items) => FormsSay(items);
      case Object(fields) =>
        var fs := SortByKey(Defined(fields));
        SortedForm(fields);
        MemberFormsSay(fs);
        forall i, j | 0 <= i < j < |fs| ensures Precedes(fs[i].key, fs[j].key) {
          LessExactly(fs[i].key, fs[j].key);
        }
      case _ =>
    }
  }

  lemma {:induction false} FormsSay(items: seq<Value>)
    requires ProperItems(items)
    ensures SaysItems(Forms(items)) == DenoteItems(items) && |Forms(items)| == |items|
    ensures forall i :: 0 <= i < |items| ==> Ascends(Forms(items)[i])
    decreases SizeItems(items)
  {
    if items != [] {
      FormSays(items[0]);
      FormsSay(items[1..]);
      assert Forms(items)[1..] == Forms(items[1..]);
    }
  }

  lemma {:induction false} MemberFormsSay(fields: seq<Field>)
    requires ProperFields(fields) && AllDefined(fields)
    ensures SaysMembers(MemberForms(fields)) == Members(fields) && |MemberForms(fields)| == |fields|
    ensures forall i :: 0 <= i < |fields| ==>
      MemberForms(fields)[i].key == fields[i].key && Ascends(MemberForms(fields)[i].value)
    decreases SizeFields(fields)
  {
    if fields != [] {
      FormSays(fields[0].value);
      assert fields[0] in fields && forall f :: f in fields[1..] ==> f in fields;
      MemberFormsSay(fields[1..]);
      assert MemberForms(fields)[1..] == MemberForms(fields[1..]);
    }
  }

  /** The round trip: read as JSON, the canonical text is one value with nothing after it, which says what the payload
      says, each object's keys in strictly ascending order of their code units. */
  lemma ReadsBack(v: Value)
    requires Proper(v)
    ensures var r := ReadValue(Canonicalise(v));
      r.Some? && r.value.1 == [] && Says(r.value.0) == Denote(v) && Ascends(r.value.0)
  {
    assert Canonicalise(v) + [] == Canonicalise(v);
    ValueReads(v, []);
    FormSays(v);
  }

  /** Equal texts, up to what follows, come from payloads that say the same. */
  lemma Unambiguous(x: Value, y: Value, r: Text, s: Text)
    requires Canonicalise(x) + r == Canonicalise(y) + s && Stops(r) && Stops(s)
    requires Proper(x) && Proper(y)
    ensures Denote(x) == Denote(y) && r == s
  {
    ValueReads(x, r);
    ValueReads(y, s);
    FormSays(x);
    FormSays(y);
  }

  /** The canonical text is a complete invariant of what a payload says: equal texts exactly when the payloads
      agree up to key order at every depth and `undefined` fields. */
  lemma CanonicalExactly(x: Value, y: Value)
    requires Proper(x) && Proper(y)
    ensures Canonicalise(x) == Canonicalise(y) <==> Denote(x) == Denote(y)
  {
    if Canonicalise(x) == Canonicalise(y) {
      assert Canonicalise(x) + [] == Canonicalise(y) + [];
      Unambiguous(x, y, [], []);
    }
    if Denote(x) == Denote(y) {
      OrderIndependent(x, y);
    }
  }

  // ---------- the text survives UTF-8 ----------

  /** Surrogates come only in pairs, so the text has a UTF-8 encoding of its own. */
  predicate WellFormed(t: Text) {
    t == [] || (if Paired(t) then WellFormed(t[2..]) else !High(t[0]) && !Low(t[0]) && WellFormed(t[1..]))
  }

  lemma {:induction false} WellFormedConcat(a: Text, b: Text)
    requires WellFormed(a) && WellFormed(b)
    ensures WellFormed(a + b)
    decreases |a|
  {
    if a == [] {
      assert a + b == b;
    } else if Paired(a) {
      WellFormedConcat(a[2..], b);
      assert (a + b)[2..] == a[2..] + b;
    } else {
      WellFormedConcat(a[1..], b);
      assert (a + b)[1..] == a[1..] + b;
    }
  }

  lemma {:induction false} PlainWellFormed(t: Text)
    requires forall i :: 0 <= i < |t| ==> !High(t[i]) && !Low(t[i])
    ensures WellFormed(t)
  {
    if t != [] {
      PlainWellFormed(t[1..]);
    }
  }

  lemma {:induction false} BodyWellFormed(s: Text)
    ensures WellFormed(Body(s))
    decreases |s|
  {
    if Paired(s) {
      BodyWellFormed(s[2..]);
      assert ([s[0], s[1]] + Body(s[2..]))[2..] == Body(s[2..]);
    } else if s != [] {
      BodyWellFormed(s[1..]);
      PlainWellFormed(Escape(s[0]));
      WellFormedConcat(Escape(s[0]), Body(s[1..]));
    }
  }

  lemma QuotedWellFormed(s: Text)
    ensures WellFormed(Quoted(s))
  {
    BodyWellFormed(s);
    PlainWellFormed([QUOTE]);
    WellFormedConcat([QUOTE], Body(s));
    WellFormedConcat([QUOTE] + Body(s), [QUOTE]);
  }

  /** Whatever strings a payload holds, lone surrogates included, the canonical text is well formed. */
  lemma {:induction false} CanonicalWellFormed(v: Value)
    ensures WellFormed(Canonicalise(v))
    decreases Size(v), 0
  {
    match v {
      case String(s) => QuotedWellFormed(s);
      case Array(items) =>
        ItemsWellFormed(items);
        Bracketed(OPEN_BRACKET, ItemsText(items), CLOSE_BRACKET);
      case Object(fields) =>
        var fs := SortByKey(Defined(fields));
        FieldsWellFormed(fs);
        Bracketed(OPEN_BRACE, FieldsText(fs), CLOSE_BRACE);
      case _ => PlainWellFormed(Canonicalise(v));
    }
  }

  lemma Bracketed(open: CodeUnit, t: Text, close: CodeUnit)
    requires !High(open) && !Low(open) && !High(close) && !Low(close) && WellFormed(t)
    ensures WellFormed([open] + t + [close])
  {
    PlainWellFormed([open]);
    PlainWellFormed([close]);
    WellFormedConcat([open], t);
    WellFormedConcat([open] + t, [close]);
  }

  lemma {:induction false} ItemsWellFormed(items: seq<Value>)
    ensures WellFormed(ItemsText(items)) && WellFormed(MoreItems(items))
    decreases SizeItems(items)
  {
    if items != [] {
      CanonicalWellFormed(items[0]);
      ItemsWellFormed(items[1..]);
      WellFormedConcat(Canonicalise(items[0]), MoreItems(items[1..]));
      PlainWellFormed([COMMA]);
      WellFormedConcat([COMMA], Canonicalise(items[0]));
      WellFormedConcat([COMMA] + Canonicalise(items[0]), MoreItems(items[1..]));
    }
  }

  lemma {:induction false} FieldsWellFormed(fields: seq<Field>)
    ensures WellFormed(FieldsText(fields)) && WellFormed(MoreFields(fields))
    decreases SizeFields(fields)
  {
    if fields != [] {
      var f := fields[0];
      QuotedWellFormed(f.key);
      PlainWellFormed([COLON]);
      WellFormedConcat(Quoted(f.key), [COLON]);
      CanonicalWellFormed(f.value);
      WellFormedConcat(Quoted(f.key) + [COLON], Canonicalise(f.value));
      FieldsWellFormed(fields[1..]);
      WellFormedConcat(FieldText(f), MoreFields(fields[1..]));
      PlainWellFormed([COMMA]);
      WellFormedConcat([COMMA], FieldText(f));
      WellFormedConcat([COMMA] + FieldText(f), MoreFields(fields[1..]));
    }
  }
}
