/** Chunking of statutory text (services/ingestion/src/index.ts, `chunkStatutoryText`). A character stands for a UTF-16
    code unit. */
module Chunker {
  import opened Prelude

  datatype Chunk = Chunk(sequenceIndex: nat, locator: Option<string>, text: string, tokenEstimate: nat,
                         checksum: string)

  const BREAK := "\n\n"

  // ---------- paragraphs ----------

  /** Where the run of spaces from `i` on ends. */
  function RunEnd(s: string, i: nat): (e: nat)
    requires i <= |s|
    ensures i <= e <= |s| && (forall k :: i <= k < e ==> IsSpace(s[k])) && (e < |s| ==> !IsSpace(s[e]))
    decreases |s| - i
  {
    if i < |s| && IsSpace(s[i]) then RunEnd(s, i + 1) else i
  }

  /** The last new line in s[low..high], if there is one. */
  function LastNewline(s: string, low: nat, high: nat): (r: Option<nat>)
    requires low <= high <= |s|
    ensures r.Some? ==> low <= r.value < high && s[r.value] == '\n'
    ensures r.None? ==> forall k :: low <= k < high ==> s[k] != '\n'
    decreases high
  {
    if low == high then None else if s[high - 1] == '\n' then Some(high - 1) else LastNewline(s, low, high - 1)
  }

  /** Where a match of `\n\s*\n` that starts at `i` ends: at the last new line of the run of spaces after it. */
  function BreakEnd(s: string, i: nat): Option<nat>
    requires i < |s|
  {
    if s[i] != '\n' then None else LastNewline(s, i + 1, RunEnd(s, i + 1))
  }

  /** `text.split(/\n\s*\n/)`, with the current paragraph begun at `start` and everything before `i` looked at. */
  function Split(s: string, start: nat, i: nat): seq<string>
    requires start <= i <= |s|
    decreases |s| - i
  {
    if i == |s| then [s[start..]]
    else if BreakEnd(s, i).Some? then [s[start..i]] + Split(s, BreakEnd(s, i).value + 1, BreakEnd(s, i).value + 1)
    else Split(s, start, i + 1)
  }

  function Paragraphs(text: string): seq<string> {
    Split(text, 0, 0)
  }

  /** Two new lines with nothing but spaces between them. */
  predicate BlankLine(s: string, i: nat, j: nat) {
    i < j < |s| && s[i] == '\n' && s[j] == '\n' && forall k :: i < k < j ==> IsSpace(s[k])
  }

  lemma BlankLineBreaks(s: string, i: nat, j: nat)
    requires BlankLine(s, i, j)
    ensures BreakEnd(s, i).Some?
  {
    assert IsSpace('\n');
    assert RunEnd(s, i + 1) > j;
  }

  /** No paragraph holds a blank line. */
  lemma {:induction false} SplitAtBlankLines(s: string, start: nat, i: nat, p: string)
    requires start <= i <= |s| && p in Split(s, start, i)
    requires forall k :: start <= k < i ==> BreakEnd(s, k).None?
    ensures forall a, b :: !BlankLine(p, a, b)
    decreases |s| - i
  {
    if i < |s| && BreakEnd(s, i).None? {
      SplitAtBlankLines(s, start, i + 1, p);
    } else if i < |s| && p != s[start..i] {
      SplitAtBlankLines(s, BreakEnd(s, i).value + 1, BreakEnd(s, i).value + 1, p);
    } else {
      assert p == s[start..i];
      forall a: nat, b: nat
        ensures !BlankLine(p, a, b)
      {
        if BlankLine(p, a, b) {
          assert BlankLine(s, start + a, start + b) by {
            forall k | start + a < k < start + b ensures IsSpace(s[k]) { assert p[k - start] == s[k]; }
          }
          BlankLineBreaks(s, start + a, start + b);
        }
      }
    }
  }

  /** What the text is split at: two new lines with nothing but spaces between them. */
  predicate Separates(gap: string) {
    |gap| >= 2 && gap[0] == '\n' && gap[|gap| - 1] == '\n' && forall k :: 0 <= k < |gap| ==> IsSpace(gap[k])
  }

  function Interleave(paragraphs: seq<string>, gaps: seq<string>): string
    requires |paragraphs| == |gaps| + 1
  {
    if gaps == [] then paragraphs[0] else paragraphs[0] + (gaps[0] + Interleave(paragraphs[1..], gaps[1..]))
  }

  /** The paragraphs with these gaps between them are the text, and each gap is a blank line. */
  ghost predicate Rejoins(paragraphs: seq<string>, gaps: seq<string>, text: string) {
    && |paragraphs| == |gaps| + 1 && Interleave(paragraphs, gaps) == text
    && forall k :: 0 <= k < |gaps| ==> Separates(gaps[k])
  }

  lemma RejoinStep(s: string, start: nat, i: nat, next: nat, rest: seq<string>, gaps: seq<string>)
    requires start <= i <= next <= |s| && Rejoins(rest, gaps, s[next..]) && Separates(s[i..next])
    ensures Rejoins([s[start..i]] + rest, [s[i..next]] + gaps, s[start..])
  {
    assert ([s[start..i]] + rest)[1..] == rest && ([s[i..next]] + gaps)[1..] == gaps;
    assert s[start..] == s[start..i] + (s[i..next] + s[next..]);
  }

  lemma GapSeparates(s: string, i: nat)
    requires i < |s| && BreakEnd(s, i).Some?
    ensures i < BreakEnd(s, i).value < |s| && Separates(s[i..BreakEnd(s, i).value + 1])
  {
    assert IsSpace('\n');
    var gap := s[i..BreakEnd(s, i).value + 1];
    assert gap[|gap| - 1] == s[BreakEnd(s, i).value];
  }

  /** The text is the paragraphs with a blank line, as it stood there, between each two: it is split nowhere else. */
  lemma {:induction false} SplitRejoins(s: string, start: nat, i: nat) returns (gaps: seq<string>)
    requires start <= i <= |s|
    ensures Rejoins(Split(s, start, i), gaps, s[start..])
    decreases |s| - i
  {
    if i == |s| {
      gaps := [];
    } else if BreakEnd(s, i).Some? {
      var next := BreakEnd(s, i).value + 1;
      GapSeparates(s, i);
      var more := SplitRejoins(s, next, next);
      RejoinStep(s, start, i, next, Split(s, next, next), more);
      gaps := [s[i..next]] + more;
      assert Split(s, start, i) == [s[start..i]] + Split(s, next, next);
    } else {
      gaps := SplitRejoins(s, start, i + 1);
    }
  }

  // ---------- nothing but spaces is lost ----------

  /** The characters that are not spaces. */
  function Ink(s: string): string {
    if s == "" then "" else Ink(s[..|s| - 1]) + if IsSpace(s[|s| - 1]) then "" else [s[|s| - 1]]
  }

  lemma {:induction false} InkAppend(a: string, b: string)
    ensures Ink(a + b) == Ink(a) + Ink(b)
    decreases |b|
  {
    if b == "" {
      assert a + b == a;
    } else {
      assert (a + b)[..|a + b| - 1] == a + b[..|b| - 1];
      InkAppend(a, b[..|b| - 1]);
    }
  }

  lemma {:induction false} InkOfSpaces(s: string)
    requires forall k :: 0 <= k < |s| ==> IsSpace(s[k])
    ensures Ink(s) == ""
  {
    if s != "" { InkOfSpaces(s[..|s| - 1]); }
  }

  lemma {:induction false} InkTrim(s: string)
    ensures Ink(Trim(s)) == Ink(s)
    decreases |s|
  {
    if s != "" {
      if IsSpace(s[0]) {
        assert s == [s[0]] + s[1..];
        InkAppend([s[0]], s[1..]);
        InkOfSpaces([s[0]]);
        InkTrim(s[1..]);
      } else if IsSpace(s[|s| - 1]) {
        InkTrim(s[..|s| - 1]);
      }
    }
  }

  function AllInk(paragraphs: seq<string>): string {
    if paragraphs == [] then "" else AllInk(paragraphs[..|paragraphs| - 1]) + Ink(paragraphs[|paragraphs| - 1])
  }

  lemma AllInkSnoc(front: seq<string>, last: string)
    ensures AllInk(front + [last]) == AllInk(front) + Ink(last)
  {
    assert (front + [last])[..|front|] == front;
  }

  lemma Regroup(a: string, b: string, c: string)
    ensures a + b + c == a + (b + c)
  {
  }

  lemma Shift(p: string, front: seq<string>, last: string)
    ensures [p] + (front + [last]) == ([p] + front) + [last]
  {
  }

  lemma {:induction false} AllInkCons(p: string, rest: seq<string>)
    ensures AllInk([p] + rest) == Ink(p) + AllInk(rest)
    decreases |rest|
  {
    if rest == [] {
      AllInkSnoc([], p);
      assert [p] + rest == [] + [p];
      assert AllInk([]) == "" && "" + Ink(p) == Ink(p) + "";
    } else {
      var front, last := rest[..|rest| - 1], rest[|rest| - 1];
      AllInkCons(p, front);
      AllInkSnoc([p] + front, last);
      AllInkSnoc(front, last);
      Regroup(Ink(p), AllInk(front), Ink(last));
      Shift(p, front, last);
      assert rest == front + [last];
    }
  }

  lemma OneInk(p: string)
    ensures AllInk([p]) == Ink(p)
  {
    AllInkSnoc([], p);
    assert [] + [p] == [p] && "" + Ink(p) == Ink(p);
  }

  lemma {:induction false} InterleaveInk(paragraphs: seq<string>, gaps: seq<string>)
    requires |paragraphs| == |gaps| + 1 && forall k :: 0 <= k < |gaps| ==> Separates(gaps[k])
    ensures Ink(Interleave(paragraphs, gaps)) == AllInk(paragraphs)
  {
    if gaps == [] {
      OneInk(paragraphs[0]);
      assert paragraphs == [paragraphs[0]];
    } else {
      var rest := Interleave(paragraphs[1..], gaps[1..]);
      InterleaveInk(paragraphs[1..], gaps[1..]);
      InkAppend(paragraphs[0], gaps[0] + rest);
      InkAppend(gaps[0], rest);
      InkOfSpaces(gaps[0]);
      assert "" + Ink(rest) == Ink(rest);
      AllInkCons(paragraphs[0], paragraphs[1..]);
      assert paragraphs == [paragraphs[0]] + paragraphs[1..];
    }
  }

  lemma SplitInk(s: string, start: nat, i: nat)
    requires start <= i <= |s|
    ensures AllInk(Split(s, start, i)) == Ink(s[start..])
  {
    var gaps := SplitRejoins(s, start, i);
    InterleaveInk(Split(s, start, i), gaps);
  }

  lemma {:induction false} PiecesInk(paragraphs: seq<string>)
    ensures AllInk(Pieces(paragraphs)) == AllInk(paragraphs)
  {
    if paragraphs != [] {
      var front, trimmed := paragraphs[..|paragraphs| - 1], Trim(paragraphs[|paragraphs| - 1]);
      PiecesInk(front);
      InkTrim(paragraphs[|paragraphs| - 1]);
      if trimmed == "" {
        assert AllInk(front) + "" == AllInk(front) && Pieces(front) + [] == Pieces(front);
      } else {
        assert (Pieces(front) + [trimmed])[..|Pieces(front)|] == Pieces(front);
      }
    }
  }

  lemma {:induction false} JoinInk(pieces: seq<string>)
    ensures Ink(Join(pieces)) == AllInk(pieces)
  {
    if |pieces| == 1 {
      assert pieces[..0] == [];
    } else if |pieces| > 1 {
      var front, last := pieces[..|pieces| - 1], pieces[|pieces| - 1];
      JoinInk(front);
      InkAppend(Join(front) + BREAK, last);
      InkAppend(Join(front), BREAK);
      assert IsSpace('\n');
      InkOfSpaces(BREAK);
    }
  }

  // ---------- what is chunked ----------

  /** The trimmed paragraphs that are not empty. */
  function Pieces(paragraphs: seq<string>): seq<string> {
    if paragraphs == [] then [] else
    var trimmed := Trim(paragraphs[|paragraphs| - 1]);
    Pieces(paragraphs[..|paragraphs| - 1]) + (if trimmed == "" then [] else [trimmed])
  }

  /** `pieces.join("\n\n")` */
  function Join(pieces: seq<string>): string {
    if pieces == [] then ""
    else if |pieces| == 1 then pieces[0]
    else Join(pieces[..|pieces| - 1]) + BREAK + pieces[|pieces| - 1]
  }

  /** Neither end is a space. */
  predicate Tight(s: string) {
    s != "" && !IsSpace(s[0]) && !IsSpace(s[|s| - 1])
  }

  ghost predicate AllTight(pieces: seq<string>) {
    forall i :: 0 <= i < |pieces| ==> Tight(pieces[i])
  }

  lemma {:induction false} TrimTight(s: string)
    ensures Trim(s) == "" || Tight(Trim(s))
    ensures Tight(s) ==> Trim(s) == s
    decreases |s|
  {
    if s != [] {
      if IsSpace(s[0]) {
        TrimTight(s[1..]);
      } else if IsSpace(s[|s| - 1]) {
        TrimTight(s[..|s| - 1]);
      }
    }
  }

  lemma {:induction false} PiecesTight(paragraphs: seq<string>)
    ensures AllTight(Pieces(paragraphs))
  {
    if paragraphs != [] {
      PiecesTight(paragraphs[..|paragraphs| - 1]);
      TrimTight(paragraphs[|paragraphs| - 1]);
    }
  }

  /** A paragraph that is not blank adds its trimmed text, which is tight. */
  lemma NextTight(paragraphs: seq<string>, k: nat)
    requires k < |paragraphs| && Trim(paragraphs[k]) != ""
    ensures Pieces(paragraphs[..k + 1]) == Pieces(paragraphs[..k]) + [Trim(paragraphs[k])] && Tight(Trim(paragraphs[k]))
  {
    assert paragraphs[..k + 1][..k] == paragraphs[..k];
    PiecesTight(paragraphs[..k + 1]);
    assert Pieces(paragraphs[..k + 1])[|Pieces(paragraphs[..k])|] == Trim(paragraphs[k]);
  }

  lemma JoinSnoc(pieces: seq<string>, piece: string)
    ensures Join(pieces + [piece]) == if pieces == [] then piece else Join(pieces) + "\n\n" + piece
  {
    assert (pieces + [piece])[..|pieces|] == pieces;
  }

  lemma {:induction false} JoinTight(pieces: seq<string>)
    requires pieces != [] && AllTight(pieces)
    ensures Tight(Join(pieces))
  {
    if |pieces| > 1 {
      JoinTight(pieces[..|pieces| - 1]);
    }
  }

  // ---------- groups of pieces ----------

  /** A group passes the size test: each piece was within the target when it was added. */
  ghost predicate Fits(target: int, group: seq<string>) {
    forall j {:trigger FitsAt(target, group, j)} :: 0 < j < |group| ==> FitsAt(target, group, j)
  }

  predicate FitsAt(target: int, group: seq<string>, j: nat)
    requires j < |group|
  {
    |Join(group[..j])| + |group[j]| <= target
  }

  ghost predicate Grouping(target: int, groups: seq<seq<string>>) {
    forall i :: 0 <= i < |groups| ==> groups[i] != [] && Fits(target, groups[i])
  }

  function Flatten(groups: seq<seq<string>>): seq<string> {
    if groups == [] then [] else Flatten(groups[..|groups| - 1]) + groups[|groups| - 1]
  }

  function Texts(groups: seq<seq<string>>): seq<string> {
    seq(|groups|, i requires 0 <= i < |groups| => Join(groups[i]))
  }

  lemma FlattenSnoc(groups: seq<seq<string>>, group: seq<string>)
    ensures Flatten(groups + [group]) == Flatten(groups) + group
  {
    assert (groups + [group])[..|groups|] == groups;
  }

  lemma TextsSnoc(groups: seq<seq<string>>, group: seq<string>)
    ensures Texts(groups + [group]) == Texts(groups) + [Join(group)]
  {
  }

  lemma JoinMore(a: seq<string>, front: seq<string>, last: string)
    requires front != [] && Join(a + front) == Join(a) + BREAK + Join(front)
    ensures Join(a + (front + [last])) == Join(a) + BREAK + Join(front + [last])
  {
    JoinSnoc(a + front, last);
    JoinSnoc(front, last);
    assert a + (front + [last]) == (a + front) + [last];
    Regroup(Join(a) + BREAK, Join(front), BREAK);
    Regroup(Join(a) + BREAK, Join(front) + BREAK, last);
  }

  lemma {:induction false} JoinAppend(a: seq<string>, b: seq<string>)
    requires b != []
    ensures Join(a + b) == if a == [] then Join(b) else Join(a) + BREAK + Join(b)
    decreases |b|
  {
    if a == [] {
      assert a + b == b;
    } else if |b| == 1 {
      JoinSnoc(a, b[0]);
      assert b == [b[0]];
    } else {
      var n := |b| - 1;
      JoinAppend(a, b[..n]);
      JoinMore(a, b[..n], b[n]);
      assert b == b[..n] + [b[n]];
    }
  }

  /** Joining the groups' texts is joining their pieces. */
  lemma {:induction false} NothingLost(groups: seq<seq<string>>)
    requires forall i :: 0 <= i < |groups| ==> groups[i] != []
    ensures Join(Texts(groups)) == Join(Flatten(groups))
    ensures groups != [] ==> Flatten(groups) != []
  {
    if groups != [] {
      var n := |groups| - 1;
      NothingLost(groups[..n]);
      assert groups == groups[..n] + [groups[n]];
      TextsSnoc(groups[..n], groups[n]);
      JoinSnoc(Texts(groups[..n]), Join(groups[n]));
      JoinAppend(Flatten(groups[..n]), groups[n]);
    }
  }

  /** A group of several pieces is at most two characters over the target. */
  lemma FitsLength(target: int, group: seq<string>)
    requires Fits(target, group) && |group| > 1
    ensures |Join(group)| <= target + 2
  {
    assert FitsAt(target, group, |group| - 1);
  }

  // ---------- the greedy grouping ----------

  datatype Greedy = Greedy(closed: seq<seq<string>>, current: seq<string>)

  function Add(target: int, g: Greedy, piece: string): Greedy {
    if g.current != [] && |Join(g.current)| + |piece| > target
    then Greedy(g.closed + [g.current], [piece])
    else Greedy(g.closed, g.current + [piece])
  }

  function Fold(target: int, pieces: seq<string>): Greedy {
    if pieces == [] then Greedy([], []) else Add(target, Fold(target, pieces[..|pieces| - 1]), pieces[|pieces| - 1])
  }

  function Finish(g: Greedy): seq<seq<string>> {
    g.closed + (if g.current == [] then [] else [g.current])
  }

  function Chunking(target: int, pieces: seq<string>): seq<seq<string>> {
    Finish(Fold(target, pieces))
  }

  /** The closed groups and the open one are the pieces in order, each group passing the size test. */
  ghost predicate Sound(target: int, g: Greedy, pieces: seq<string>) {
    Grouping(target, g.closed) && Fits(target, g.current) && Flatten(g.closed) + g.current == pieces
  }

  lemma AddSound(target: int, g: Greedy, pieces: seq<string>, piece: string)
    requires Sound(target, g, pieces)
    ensures Sound(target, Add(target, g, piece), pieces + [piece])
  {
    if g.current != [] && |Join(g.current)| + |piece| > target {
      FlattenSnoc(g.closed, g.current);
      FitsSnoc(target, [], piece);
      assert [] + [piece] == [piece];
    } else {
      FitsSnoc(target, g.current, piece);
      assert Flatten(g.closed) + (g.current + [piece]) == pieces + [piece];
    }
  }

  lemma {:induction false} FoldSound(target: int, pieces: seq<string>)
    ensures Sound(target, Fold(target, pieces), pieces) && (pieces != [] ==> Fold(target, pieces).current != [])
  {
    if pieces != [] {
      var k := |pieces| - 1;
      FoldSound(target, pieces[..k]);
      AddSound(target, Fold(target, pieces[..k]), pieces[..k], pieces[k]);
      assert pieces == pieces[..k] + [pieces[k]];
    }
  }

  lemma FitsSnoc(target: int, group: seq<string>, piece: string)
    requires Fits(target, group) && (group == [] || |Join(group)| + |piece| <= target)
    ensures Fits(target, group + [piece])
  {
    var more := group + [piece];
    forall j | 0 < j < |more|
      ensures FitsAt(target, more, j)
    {
      assert more[..j] == group[..j];
      if j < |group| { assert FitsAt(target, group, j); } else { assert group[..j] == group; }
    }
  }

  lemma ChunkingGroups(target: int, pieces: seq<string>)
    ensures Grouping(target, Chunking(target, pieces)) && Flatten(Chunking(target, pieces)) == pieces
  {
    FoldSound(target, pieces);
    var g := Fold(target, pieces);
    FlattenSnoc(g.closed, g.current);
    assert g.current == [] ==> Flatten(g.closed) + g.current == Flatten(g.closed) && Finish(g) == g.closed;
  }

  lemma {:induction false} SuffixShorter(pieces: seq<string>, i: nat)
    requires i <= |pieces|
    ensures |Join(pieces[i..])| <= |Join(pieces)|
  {
    if i < |pieces| {
      JoinAppend(pieces[..i], pieces[i..]);
      assert pieces == pieces[..i] + pieces[i..];
    }
  }

  /** Two ends of one list: the shorter is an end of the longer, and joins to no more. */
  lemma EndsNested(a: seq<string>, x: seq<string>, b: seq<string>, y: seq<string>)
    requires a + x == b + y && |x| <= |y|
    ensures |Join(x)| <= |Join(y)|
  {
    var d := |y| - |x|;
    assert x == (a + x)[|a|..] == (b + y)[|b| + d..] == y[d..];
    SuffixShorter(y, d);
  }

  /** What the greedy state is compared with: it has opened no more groups than any grouping of the same pieces,
      and where it has opened as many its open group is no longer. */
  ghost predicate NoWorse(g: Greedy, groups: seq<seq<string>>) {
    && |Finish(g)| <= |groups|
    && (g.current != [] && |Finish(g)| == |groups| ==> |g.current| <= |groups[|groups| - 1]|)
  }

  lemma {:induction false} GreedyNoWorse(target: int, pieces: seq<string>, groups: seq<seq<string>>)
    requires Grouping(target, groups) && Flatten(groups) == pieces
    ensures NoWorse(Fold(target, pieces), groups)
    decreases |pieces|
  {
    if pieces != [] {
      var k, n := |pieces| - 1, |groups| - 1;
      var front, init, last := pieces[..k], groups[..n], groups[n];
      assert groups == init + [last] && Grouping(target, init);
      LastPiece(init, last, pieces);
      var shorter := if |last| == 1 then init else init + [last[..|last| - 1]];
      if |last| > 1 { ShorterGrouping(target, init, last, |last| - 1); }
      GreedyNoWorse(target, front, shorter);
      OnePieceMore(target, front, pieces[k], init, last);
    }
  }

  lemma OnePieceMore(target: int, front: seq<string>, piece: string, init: seq<seq<string>>, last: seq<string>)
    requires last != [] && last[|last| - 1] == piece && Fits(target, last)
    requires Flatten(init) + last[..|last| - 1] == front
    requires NoWorse(Fold(target, front), if |last| == 1 then init else init + [last[..|last| - 1]])
    ensures NoWorse(Add(target, Fold(target, front), piece), init + [last])
  {
    if |last| == 1 {
      OneGroupMore(target, Fold(target, front), piece, init, last);
    } else {
      FoldSound(target, front);
      assert front != [] by { assert |last[..|last| - 1]| > 0; }
      LongerStillNoWorse(target, Fold(target, front), front, init, last);
    }
  }

  /** The comparison survives one more piece that is a group of its own. */
  lemma OneGroupMore(target: int, g: Greedy, piece: string, groups: seq<seq<string>>, last: seq<string>)
    requires NoWorse(g, groups) && last == [piece]
    ensures NoWorse(Add(target, g, piece), groups + [last])
  {
  }

  lemma ShorterGrouping(target: int, groups: seq<seq<string>>, last: seq<string>, m: nat)
    requires Grouping(target, groups) && Fits(target, last) && 0 < m <= |last|
    ensures Grouping(target, groups + [last[..m]]) && Flatten(groups + [last[..m]]) == Flatten(groups) + last[..m]
  {
    FitsPrefix(target, last, m);
    FlattenSnoc(groups, last[..m]);
  }

  /** Taking the last piece off the last group takes it off the list. */
  lemma LastPiece(groups: seq<seq<string>>, last: seq<string>, pieces: seq<string>)
    requires last != [] && pieces == Flatten(groups) + last
    ensures last[|last| - 1] == pieces[|pieces| - 1] && Flatten(groups) + last[..|last| - 1] == pieces[..|pieces| - 1]
    ensures |last| == 1 ==> Flatten(groups) == pieces[..|pieces| - 1]
  {
    assert |last| == 1 ==> Flatten(groups) + last[..0] == Flatten(groups);
  }

  /** The comparison survives one more piece at the end of the last group: where the greedy grouping must open a new
      group for it, its open group was shorter, so the other could not have taken the piece either. */
  lemma LongerStillNoWorse(target: int, g: Greedy, front: seq<string>, groups: seq<seq<string>>, last: seq<string>)
    requires |last| > 1 && Fits(target, last) && g.current != [] && Flatten(g.closed) + g.current == front
    requires Flatten(groups) + last[..|last| - 1] == front && NoWorse(g, groups + [last[..|last| - 1]])
    ensures NoWorse(Add(target, g, last[|last| - 1]), groups + [last])
  {
    var m := |last| - 1;
    assert FitsAt(target, last, m);
    if |g.current| <= m {
      EndsNested(Flatten(g.closed), g.current, Flatten(groups), last[..m]);
    }
  }

  lemma FitsPrefix(target: int, group: seq<string>, m: nat)
    requires Fits(target, group) && m <= |group|
    ensures Fits(target, group[..m])
  {
    var front := group[..m];
    forall j | 0 < j < |front|
      ensures FitsAt(target, front, j)
    {
      assert FitsAt(target, group, j);
      assert front[..j] == group[..j];
    }
  }

  /** No in-order grouping that passes the same size test uses fewer chunks. */
  lemma FewestChunks(target: int, pieces: seq<string>, groups: seq<seq<string>>)
    requires Grouping(target, groups) && Flatten(groups) == pieces
    ensures |Chunking(target, pieces)| <= |groups|
  {
    GreedyNoWorse(target, pieces, groups);
  }

  // ---------- locators ----------

  /** The last marker among these pieces. `marker` says what a piece's opening words name, if they name a section. */
  function LastMarker(marker: string -> Option<string>, pieces: seq<string>): Option<string> {
    if pieces == [] then None else
    var last := marker(pieces[|pieces| - 1]);
    if last.Some? then last else LastMarker(marker, pieces[..|pieces| - 1])
  }

  lemma LastMarkerSnoc(marker: string -> Option<string>, pieces: seq<string>, piece: string)
    ensures LastMarker(marker, pieces + [piece])
         == if marker(piece).Some? then marker(piece) else LastMarker(marker, pieces)
  {
    assert (pieces + [piece])[..|pieces|] == pieces;
  }

  /** `pieces[k]` is the last that opens with a marker. */
  ghost predicate LastMarked(marker: string -> Option<string>, pieces: seq<string>, k: int) {
    0 <= k < |pieces| && marker(pieces[k]).Some? && forall j :: k < j < |pieces| ==> marker(pieces[j]).None?
  }

  lemma {:induction false} LastMarkerExactly(marker: string -> Option<string>, pieces: seq<string>)
    ensures LastMarker(marker, pieces).None? ==> forall k :: 0 <= k < |pieces| ==> marker(pieces[k]).None?
    ensures LastMarker(marker, pieces).Some? ==>
      exists k :: LastMarked(marker, pieces, k) && LastMarker(marker, pieces) == marker(pieces[k])
  {
    if pieces != [] {
      var n := |pieces| - 1;
      LastMarkerExactly(marker, pieces[..n]);
      if marker(pieces[n]).Some? {
        assert LastMarked(marker, pieces, n);
      } else if LastMarker(marker, pieces).Some? {
        var k :| LastMarked(marker, pieces[..n], k) && LastMarker(marker, pieces) == marker(pieces[..n][k]);
        assert LastMarked(marker, pieces, k);
      } else {
        forall k | 0 <= k < |pieces| ensures marker(pieces[k]).None? {
          if k < n { assert marker(pieces[..n][k]).None?; }
        }
      }
    }
  }

  /** The locator a chunk is given: a chunk is closed by the piece that no longer fits, whose marker is read first. */
  function LocatorAt(marker: string -> Option<string>, groups: seq<seq<string>>, i: nat): Option<string>
    requires i < |groups|
  {
    LastMarker(marker, Flatten(groups[..i + 1]) + if i + 1 < |groups| then Opening(groups[i + 1]) else [])
  }

  function Opening(group: seq<string>): seq<string> {
    if group == [] then [] else [group[0]]
  }

  /** So a chunk is located by its own paragraphs and those before it exactly when the next chunk does not open with a
      marker of its own. */
  lemma LocatorExactly(marker: string -> Option<string>, groups: seq<seq<string>>, i: nat)
    requires i < |groups| && forall k :: 0 <= k < |groups| ==> groups[k] != []
    ensures var own := LastMarker(marker, Flatten(groups[..i + 1]));
      LocatorAt(marker, groups, i) == own <==> i + 1 == |groups| || marker(groups[i + 1][0]) in {None, own}
  {
    var mine := Flatten(groups[..i + 1]);
    if i + 1 < |groups| {
      LastMarkerSnoc(marker, mine, groups[i + 1][0]);
    } else {
      assert mine + [] == mine;
    }
  }

  // ---------- the chunks ----------

  function ChunkAt(index: nat, locator: Option<string>, text: string, hash: string -> string): Chunk {
    Chunk(index, locator, text, (|text| + 3) / 4, hash(text))
  }

  /** The chunks of the first groups, as far as they go. */
  ghost predicate Emitted(chunks: seq<Chunk>, groups: seq<seq<string>>, marker: string -> Option<string>,
                          hash: string -> string)
  {
    |chunks| <= |groups|
    && forall i :: 0 <= i < |chunks| ==> chunks[i] == ChunkAt(i, LocatorAt(marker, groups, i), Join(groups[i]), hash)
  }

  /** A group that is opened, or gets longer, changes nothing before it. */
  lemma EmittedKept(chunks: seq<Chunk>, groups: seq<seq<string>>, more: seq<seq<string>>,
                    marker: string -> Option<string>,
                    hash: string -> string)
    requires Emitted(chunks, groups, marker, hash) && |chunks| < |groups| <= |more|
    requires more[..|chunks|] == groups[..|chunks|] && Opening(more[|chunks|]) == Opening(groups[|chunks|])
    ensures Emitted(chunks, more, marker, hash)
  {
    forall i | 0 <= i < |chunks|
      ensures LocatorAt(marker, more, i) == LocatorAt(marker, groups, i) && more[i] == groups[i]
    {
      assert more[..i + 1] == more[..|chunks|][..i + 1] && groups[..i + 1] == groups[..|chunks|][..i + 1];
      assert more[i] == more[..|chunks|][i] && groups[i] == groups[..|chunks|][i];
      if i + 1 < |chunks| {
        assert more[i + 1] == more[..|chunks|][i + 1] && groups[i + 1] == groups[..|chunks|][i + 1];
      }
    }
  }

  lemma EmittedSnoc(chunks: seq<Chunk>, groups: seq<seq<string>>, marker: string -> Option<string>,
                    hash: string -> string)
    requires Emitted(chunks, groups, marker, hash) && |chunks| < |groups|
    ensures Emitted(chunks + [ChunkAt(|chunks|, LocatorAt(marker, groups, |chunks|), Join(groups[|chunks|]), hash)],
                    groups, marker, hash)
  {
  }

  function ChunkTexts(chunks: seq<Chunk>): seq<string> {
    seq(|chunks|, i requires 0 <= i < |chunks| => chunks[i].text)
  }

  lemma EmittedAll(target: int, text: string, chunks: seq<Chunk>, marker: string -> Option<string>,
                   hash: string -> string)
    requires var groups := Chunking(target, Pieces(Paragraphs(text)));
      Emitted(chunks, groups, marker, hash) && |chunks| == |groups|
    ensures Join(ChunkTexts(chunks)) == Join(Pieces(Paragraphs(text)))
    ensures Ink(Join(ChunkTexts(chunks))) == Ink(text)
  {
    var pieces := Pieces(Paragraphs(text));
    ChunkingGroups(target, pieces);
    NothingLost(Chunking(target, pieces));
    assert ChunkTexts(chunks) == Texts(Chunking(target, pieces));
    JoinInk(pieces);
    PiecesInk(Paragraphs(text));
    ParagraphsInk(text);
  }

  lemma ParagraphsInk(text: string)
    ensures AllInk(Paragraphs(text)) == Ink(text)
  {
    SplitInk(text, 0, 0);
    assert text[0..] == text;
  }

  /** What the loop's variables hold once these pieces have been read. */
  ghost predicate Running(target: int, pieces: seq<string>, chunks: seq<Chunk>, buffer: string, locator: Option<string>,
                          marker: string -> Option<string>, hash: string -> string)
  {
    var g := Fold(target, pieces);
    && AllTight(pieces) && |chunks| == |g.closed| && Emitted(chunks, Finish(g), marker, hash)
    && buffer == Join(g.current) && locator == LastMarker(marker, pieces)
  }

  /** Emits the greedy grouping of the trimmed non-empty paragraphs, numbered from zero, losing nothing but spaces. */
  method ChunkStatutoryText(text: string, targetChunkChars: int, marker: string -> Option<string>,
                            hash: string -> string)
    returns (chunks: seq<Chunk>)
    ensures var groups := Chunking(targetChunkChars, Pieces(Paragraphs(text)));
      |chunks| == |groups| && Emitted(chunks, groups, marker, hash)
    ensures forall i :: 0 <= i < |chunks| ==>
      && chunks[i].sequenceIndex == i && chunks[i].checksum == hash(chunks[i].text)
      && chunks[i].tokenEstimate * 4 - 4 < |chunks[i].text| <= chunks[i].tokenEstimate * 4
    ensures Join(ChunkTexts(chunks)) == Join(Pieces(Paragraphs(text)))
    ensures Ink(Join(ChunkTexts(chunks))) == Ink(text)
  {
    var paragraphs := Paragraphs(text);
    chunks := [];
    var currentBuffer := "";
    var currentLocator: Option<string> := None;
    ghost var pieces := [];
    for k := 0 to |paragraphs|
      invariant pieces == Pieces(paragraphs[..k])
      invariant Running(targetChunkChars, pieces, chunks, currentBuffer, currentLocator, marker, hash)
    {
      assert paragraphs[..k + 1][..k] == paragraphs[..k];
      var trimmed := Trim(paragraphs[k]);
      if trimmed == "" {
        continue;
      }
      NextTight(paragraphs, k);
      if marker(trimmed).Some? { currentLocator := marker(trimmed); }
      if |currentBuffer| + |trimmed| > targetChunkChars && |currentBuffer| > 0 {
        Flushed(targetChunkChars, pieces, trimmed, chunks, currentBuffer, marker, hash);
        var chunkText := Trim(currentBuffer);
        chunks := chunks + [ChunkAt(|chunks|, currentLocator, chunkText, hash)];
        currentBuffer := "";
      } else {
        Lengthened(targetChunkChars, pieces, trimmed, chunks, currentBuffer, marker, hash);
      }
      pieces := pieces + [trimmed];
      currentBuffer := currentBuffer + (if currentBuffer != "" then BREAK else "") + trimmed;
    }
    assert paragraphs[..|paragraphs|] == paragraphs;
    Ended(targetChunkChars, pieces, chunks, currentBuffer, marker, hash);
    if |Trim(currentBuffer)| > 0 {
      var chunkText := Trim(currentBuffer);
      chunks := chunks + [ChunkAt(|chunks|, currentLocator, chunkText, hash)];
    } else {
      assert chunks + [] == chunks;
    }
    EmittedAll(targetChunkChars, text, chunks, marker, hash);
  }

  /** A piece that no longer fits closes the open group, which is emitted with the piece's marker already read. */
  lemma {:induction false} Flushed(target: int, pieces: seq<string>, piece: string, chunks: seq<Chunk>, buffer: string,
                                   marker: string -> Option<string>, hash: string -> string)
    requires Running(target, pieces, chunks, buffer, LastMarker(marker, pieces), marker, hash) && Tight(piece)
    requires |buffer| + |piece| > target && |buffer| > 0
    ensures var locator := if marker(piece).Some? then marker(piece) else LastMarker(marker, pieces);
      Running(target, pieces + [piece], chunks + [ChunkAt(|chunks|, locator, Trim(buffer), hash)],
              "" + "" + piece, locator, marker, hash)
  {
    var g := Fold(target, pieces);
    var after := Add(target, g, piece);
    AddPiece(target, pieces, piece);
    LastMarkerSnoc(marker, pieces, piece);
    FoldSound(target, pieces);
    EmittedKept(chunks, Finish(g), Finish(after), marker, hash);
    assert Finish(after)[..|chunks| + 1] == g.closed + [g.current];
    FlattenSnoc(g.closed, g.current);
    EmittedSnoc(chunks, Finish(after), marker, hash);
  }

  lemma {:induction false} Lengthened(target: int, pieces: seq<string>, piece: string, chunks: seq<Chunk>,
                                      buffer: string,
                                      marker: string -> Option<string>, hash: string -> string)
    requires Running(target, pieces, chunks, buffer, LastMarker(marker, pieces), marker, hash) && Tight(piece)
    requires !(|buffer| + |piece| > target && |buffer| > 0)
    ensures Running(target, pieces + [piece], chunks, buffer + (if buffer != "" then BREAK else "") + piece,
                    if marker(piece).Some? then marker(piece) else LastMarker(marker, pieces), marker, hash)
  {
    var g := Fold(target, pieces);
    AddPiece(target, pieces, piece);
    LastMarkerSnoc(marker, pieces, piece);
    FoldSound(target, pieces);
    if g.current != [] {
      EmittedKept(chunks, Finish(g), Finish(Add(target, g, piece)), marker, hash);
    }
  }

  /** At the end the open group, if there is one, is what is left to emit. */
  lemma {:induction false} Ended(target: int, pieces: seq<string>, chunks: seq<Chunk>, buffer: string,
                                 marker: string -> Option<string>, hash: string -> string)
    requires Running(target, pieces, chunks, buffer, LastMarker(marker, pieces), marker, hash)
    ensures var more :=
        if |Trim(buffer)| > 0 then [ChunkAt(|chunks|, LastMarker(marker, pieces), Trim(buffer), hash)] else [];
      Emitted(chunks + more, Chunking(target, pieces), marker, hash) && |chunks + more| == |Chunking(target, pieces)|
  {
    CurrentTight(target, pieces);
    if Fold(target, pieces).current != [] {
      LastLocator(target, pieces, marker);
      EmittedSnoc(chunks, Chunking(target, pieces), marker, hash);
    } else {
      assert chunks + [] == chunks;
    }
  }

  lemma LastLocator(target: int, pieces: seq<string>, marker: string -> Option<string>)
    requires Fold(target, pieces).current != []
    ensures var g := Fold(target, pieces); LocatorAt(marker, Finish(g), |g.closed|) == LastMarker(marker, pieces)
  {
    var g := Fold(target, pieces);
    FoldSound(target, pieces);
    assert Finish(g)[..|g.closed| + 1] == g.closed + [g.current];
    FlattenSnoc(g.closed, g.current);
    assert pieces + [] == pieces;
  }

  /** What one more piece does to the groups is what the loop does to the buffer. */
  lemma AddPiece(target: int, pieces: seq<string>, piece: string)
    requires AllTight(pieces) && Tight(piece)
    ensures AllTight(pieces + [piece])
    ensures var g, after := Fold(target, pieces), Fold(target, pieces + [piece]);
      var buffer := Join(g.current);
      && after == Add(target, g, piece) && Trim(buffer) == buffer && (buffer == "" <==> g.current == [])
      && if |buffer| + |piece| > target && |buffer| > 0
         then after.closed == g.closed + [g.current] && Join(after.current) == piece
         else after.closed == g.closed && Join(after.current) == buffer + (if buffer != "" then BREAK else "") + piece
  {
    CurrentTight(target, pieces);
    JoinSnoc(Fold(target, pieces).current, piece);
    assert (pieces + [piece])[..|pieces|] == pieces;
  }

  /** The buffer is empty exactly when no group is open, and needs no trimming. */
  lemma CurrentTight(target: int, pieces: seq<string>)
    requires AllTight(pieces)
    ensures var g := Fold(target, pieces);
      if g.current == [] then Join(g.current) == ""
      else Tight(Join(g.current)) && Trim(Join(g.current)) == Join(g.current)
  {
    FoldSound(target, pieces);
    var g := Fold(target, pieces);
    if g.current != [] {
      EndTight(Flatten(g.closed), g.current);
      JoinTight(g.current);
      TrimTight(Join(g.current));
    }
  }

  lemma EndTight(a: seq<string>, b: seq<string>)
    requires AllTight(a + b)
    ensures AllTight(b)
  {
    forall i | 0 <= i < |b| ensures Tight(b[i]) {
      assert (a + b)[|a| + i] == b[i];
    }
  }
}
