/** Per-identity rate limits (packages/ratelimit/src/index.ts): the pruned in-memory counter, the decision it
    feeds, and several policies applied in order. Times are epoch milliseconds. */
module RateLimit {
  import opened Prelude

  datatype Scope = Identity | Address

  datatype FailureMode = Closed | Open

  datatype Policy = Policy(id: string, scope: Scope, limit: nat, windowMs: nat, onCounterUnavailable: FailureMode)

  /** Whom a request is counted against; a missing or empty one cannot be. */
  datatype Subjects = Subjects(identity: Option<string>, address: Option<string>)

  datatype Decision = Decision(allowed: bool, policyId: string, remaining: Option<nat>, resetAt: int, degraded: bool)

  // ---------- counting within a window ----------

  /** The times after `cutoff`, in order. */
  function Live(times: seq<int>, cutoff: int): seq<int> {
    if times == [] then [] else
    var t := times[|times| - 1];
    Live(times[..|times| - 1], cutoff) + (if t > cutoff then [t] else [])
  }

  lemma {:induction false} LiveMember(times: seq<int>, cutoff: int, t: int)
    ensures t in Live(times, cutoff) <==> t in times && t > cutoff
  {
    if times != [] {
      LiveMember(times[..|times| - 1], cutoff, t);
      assert times == times[..|times| - 1] + [times[|times| - 1]];
    }
  }

  /** How many of the times come after `cutoff`. */
  function Later(times: seq<int>, cutoff: int): nat {
    |set i | 0 <= i < |times| && times[i] > cutoff|
  }

  lemma {:induction false} LiveCount(times: seq<int>, cutoff: int)
    ensures |Live(times, cutoff)| == Later(times, cutoff)
  {
    if times != [] {
      var n := |times| - 1;
      var front := times[..n];
      LiveCount(front, cutoff);
      var before := set i | 0 <= i < |front| && front[i] > cutoff;
      assert (set i | 0 <= i < |times| && times[i] > cutoff) == if times[n] > cutoff then before + {n} else before;
    }
  }

  lemma LiveSnoc(times: seq<int>, t: int, cutoff: int)
    ensures Live(times + [t], cutoff) == Live(times, cutoff) + (if t > cutoff then [t] else [])
  {
    assert (times + [t])[..|times|] == times;
  }

  /** Pruning at one cutoff is invisible at any later one. */
  lemma {:induction false} LiveTwice(times: seq<int>, early: int, late: int)
    requires early <= late
    ensures Live(Live(times, early), late) == Live(times, late)
  {
    if times != [] {
      var front, t := times[..|times| - 1], times[|times| - 1];
      LiveTwice(front, early, late);
      LiveSnoc(Live(front, early), t, late);
      assert Live(times, early) == if t > early then Live(front, early) + [t] else Live(front, early);
    }
  }

  /** The list kept for a key answers like the full history from `since` on. */
  ghost predicate Agrees(kept: seq<int>, history: seq<int>, since: int) {
    forall cutoff {:trigger Live(kept, cutoff)} {:trigger Live(history, cutoff)} :: cutoff >= since ==>
      Live(kept, cutoff) == Live(history, cutoff)
  }

  lemma PruneAgrees(kept: seq<int>, history: seq<int>, since: int, cutoff: int, now: int)
    requires Agrees(kept, history, since) && since <= cutoff
    ensures Agrees(Live(kept, cutoff), history, cutoff)
    ensures Agrees(Live(kept, cutoff) + [now], history + [now], cutoff)
  {
    forall c | c >= cutoff
      ensures Live(Live(kept, cutoff), c) == Live(history, c)
      ensures Live(Live(kept, cutoff) + [now], c) == Live(history + [now], c)
    {
      LiveTwice(kept, cutoff, c);
      LiveSnoc(Live(kept, cutoff), now, c);
      LiveSnoc(history, now, c);
    }
  }

  /** Sweeping with some window leaves the answers of a key as they were exactly when nothing the key still counts is
      old enough to be swept: in particular whenever the sweep's window is at least the key's. */
  lemma SweepExactly(history: seq<int>, now: int, window: int, sweep: int)
    ensures Agrees(Live(history, now - sweep), history, now - window)
       <==> forall t :: t in history && t > now - window ==> t > now - sweep
    ensures sweep >= window ==> Agrees(Live(history, now - sweep), history, now - window)
  {
    var kept, since, swept := Live(history, now - sweep), now - window, now - sweep;
    if forall t :: t in history && t > since ==> t > swept {
      forall cutoff | cutoff >= since
        ensures Live(kept, cutoff) == Live(history, cutoff)
      {
        SweepInvisible(history, swept, cutoff);
      }
    } else {
      var t :| t in history && t > since && t <= swept;
      LiveMember(history, since, t);
      LiveMember(kept, since, t);
      LiveMember(history, swept, t);
      assert Live(kept, since) != Live(history, since);
    }
  }

  lemma SweepInvisible(history: seq<int>, swept: int, cutoff: int)
    requires forall t :: t in history && t > cutoff ==> t > swept
    ensures Live(Live(history, swept), cutoff) == Live(history, cutoff)
  {
    if swept <= cutoff {
      LiveTwice(history, swept, cutoff);
    } else {
      var kept := Live(history, swept);
      forall t | t in kept && t > cutoff
        ensures t > swept
      {
        LiveMember(history, swept, t);
      }
      SameLive(history, cutoff, swept);
      SameLive(kept, cutoff, swept);
      LiveTwice(history, swept, swept);
    }
  }

  /** Cutoffs with nothing between them keep the same times. */
  lemma {:induction false} SameLive(times: seq<int>, early: int, late: int)
    requires early <= late && forall t :: t in times && t > early ==> t > late
    ensures Live(times, early) == Live(times, late)
  {
    if times != [] {
      var front := times[..|times| - 1];
      forall t | t in front && t > early
        ensures t > late
      {
        assert t in times;
      }
      SameLive(front, early, late);
      assert times[|times| - 1] in times;
    }
  }

  // ---------- admissions are bounded ----------

  /** Whether the i-th request of a key is allowed: every earlier request counts, refused ones included. */
  predicate Admitted(times: seq<int>, limit: nat, window: nat, i: nat)
    requires i < |times|
  {
    |Live(times[..i], times[i] - window)| + 1 <= limit
  }

  /** How many of the first n requests lie in [from, from + window) and were allowed. */
  function Admissions(times: seq<int>, limit: nat, window: nat, from: int, n: nat): nat
    requires n <= |times|
  {
    if n == 0 then 0 else
    Admissions(times, limit, window, from, n - 1)
      + if from <= times[n - 1] < from + window && Admitted(times, limit, window, n - 1) then 1 else 0
  }

  lemma {:induction false} AdmissionsAreLive(times: seq<int>, limit: nat, window: nat, from: int, n: nat, cutoff: int)
    requires n <= |times| && cutoff < from
    ensures Admissions(times, limit, window, from, n) <= |Live(times[..n], cutoff)|
  {
    if n > 0 {
      AdmissionsAreLive(times, limit, window, from, n - 1, cutoff);
      assert times[..n][..n - 1] == times[..n - 1];
    }
  }

  /** No half-open interval of window length holds more than `limit` allowed requests. */
  lemma {:induction false} AdmissionsBounded(times: seq<int>, limit: nat, window: nat, from: int, n: nat)
    requires n <= |times|
    ensures Admissions(times, limit, window, from, n) <= limit
  {
    if n > 0 {
      AdmissionsBounded(times, limit, window, from, n - 1);
      var t := times[n - 1];
      if from <= t < from + window && Admitted(times, limit, window, n - 1) {
        AdmissionsAreLive(times, limit, window, from, n - 1, t - window);
      }
    }
  }

  /** Later requests do not change whether an earlier one was allowed. */
  lemma AdmittedStable(times: seq<int>, more: seq<int>, limit: nat, window: nat, i: nat)
    requires i < |times|
    ensures Admitted(times + more, limit, window, i) <==> Admitted(times, limit, window, i)
  {
    assert (times + more)[..i] == times[..i];
  }

  // ---------- the counter ----------

  function Times(m: map<string, seq<int>>, key: string): seq<int> {
    if key in m then m[key] else []
  }

  /** A key's kept list stands for its full history, from the key's window before `clock` on. */
  ghost predicate Counted(kept: seq<int>, history: seq<int>, window: nat, clock: int) {
    Agrees(kept, history, clock - window)
  }

  lemma Record(kept: seq<int>, history: seq<int>, window: nat, clock: int, now: int)
    requires Counted(kept, history, window, clock) && clock <= now
    ensures Counted(Live(kept, now - window) + [now], history + [now], window, now)
    ensures Live(kept, now - window) == Live(history, now - window)
  {
    PruneAgrees(kept, history, clock - window, now - window, now);
  }

  lemma SweepKey(kept: seq<int>, history: seq<int>, window: nat, clock: int, now: int, sweep: nat)
    requires Counted(kept, history, window, clock) && clock <= now && window <= sweep
    ensures Counted(Live(kept, now - sweep), history, window, now)
  {
    forall c | c >= now - window
      ensures Live(Live(kept, now - sweep), c) == Live(history, c)
    {
      LiveTwice(kept, now - sweep, c);
    }
  }

  ghost predicate Store(hits: map<string, seq<int>>, history: map<string, seq<int>>, windows: map<string, nat>,
                        clock: int)
  {
    && history.Keys == windows.Keys && hits.Keys <= history.Keys
    && (forall key {:trigger Counted(Times(hits, key), history[key], windows[key], clock)} :: key in history ==>
          Counted(Times(hits, key), history[key], windows[key], clock))
  }

  lemma StoreRecord(hits: map<string, seq<int>>, history: map<string, seq<int>>, windows: map<string, nat>, clock: int,
                    key: string, window: nat, now: int)
    requires Store(hits, history, windows, clock) && clock <= now && (key in windows ==> windows[key] == window)
    ensures Live(Times(hits, key), now - window) == Live(Times(history, key), now - window)
    ensures Store(hits[key := Live(Times(hits, key), now - window) + [now]],
                  history[key := Times(history, key) + [now]],
                  windows[key := window], now)
  {
    var kept, past := Times(hits, key), Times(history, key);
    assert Counted(kept, past, window, clock) by {
      if key in history { assert Counted(Times(hits, key), history[key], windows[key], clock); }
    }
    Record(kept, past, window, clock, now);
    var hits' := hits[key := Live(kept, now - window) + [now]];
    var history', windows' := history[key := past + [now]], windows[key := window];
    forall k | k in history'
      ensures Counted(Times(hits', k), history'[k], windows'[k], now)
    {
      if k != key {
        assert Counted(Times(hits, k), history[k], windows[k], clock);
        assert Times(hits', k) == Times(hits, k);
      }
    }
  }

  lemma StoreTick(hits: map<string, seq<int>>, history: map<string, seq<int>>, windows: map<string, nat>, clock: int,
                  now: int)
    requires Store(hits, history, windows, clock) && clock <= now
    ensures Store(hits, history, windows, now)
  {
    forall k | k in history
      ensures Counted(Times(hits, k), history[k], windows[k], now)
    {
      assert Counted(Times(hits, k), history[k], windows[k], clock);
    }
  }

  /** No listed key is counted in a wider window. */
  ghost predicate NoWider(hits: map<string, seq<int>>, windows: map<string, nat>, window: nat) {
    forall key :: key in hits && key in windows ==> windows[key] <= window
  }

  /** Sweeping every list with a window at least as wide as its own leaves the store standing for the same history. */
  lemma StoreSwept(hits: map<string, seq<int>>, history: map<string, seq<int>>, windows: map<string, nat>, clock: int,
                   now: int, sweep: nat, after: map<string, seq<int>>)
    requires Store(hits, history, windows, clock) && clock <= now && after.Keys <= hits.Keys
    requires NoWider(hits, windows, sweep)
    requires forall key :: Times(after, key) == Live(Times(hits, key), now - sweep)
    ensures Store(after, history, windows, now)
  {
    StoreTick(hits, history, windows, clock, now);
    forall k | k in history
      ensures Counted(Times(after, k), history[k], windows[k], now)
    {
      assert Counted(Times(hits, k), history[k], windows[k], now);
      if k in hits { SweepKey(hits[k], history[k], windows[k], now, now, sweep); }
    }
  }

  // ---------- decisions over the full history ----------

  const UNLIMITED: string := "none"

  function KeyOf(policy: Policy, subject: string): string {
    policy.id + ":" + subject
  }

  function SubjectOf(policy: Policy, subjects: Subjects): Option<string> {
    if policy.scope == Identity then subjects.identity else subjects.address
  }

  /** The request can be counted: there is somebody to count it against, and the counter answers. */
  predicate Countable(subject: Option<string>, reachable: bool) {
    subject.GetOr("") != "" && reachable
  }

  /** The decision of one policy, judged on the times listed under its key. */
  function Judge(policy: Policy, subject: Option<string>, reachable: bool, now: int, lists: map<string,
                 seq<int>>): Decision
  {
    if !Countable(subject, reachable)
    then Decision(policy.onCounterUnavailable.Open?, policy.id, None, now + policy.windowMs, true)
    else
      var past := Times(lists, KeyOf(policy, subject.value));
      var count := |Live(past, now - policy.windowMs)| + 1;
      Decision(count <= policy.limit, policy.id, Some(if count <= policy.limit then policy.limit - count else 0),
               now + policy.windowMs, false)
  }

  /** The lists once that decision has been taken: refused requests are recorded too. The counter keeps them pruned; the
      full history is never pruned. */
  function Recorded(prune: bool, policy: Policy, subject: Option<string>, reachable: bool, now: int,
                    lists: map<string, seq<int>>): map<string, seq<int>>
  {
    if !Countable(subject, reachable) then lists
    else
      var key := KeyOf(policy, subject.value);
      lists[key := (if prune then Live(Times(lists, key), now - policy.windowMs) else Times(lists, key)) + [now]]
  }

  function Widened(policy: Policy, subject: Option<string>, reachable: bool, windows: map<string,
                   nat>): map<string, nat> {
    if !Countable(subject, reachable) then windows else windows[KeyOf(policy, subject.value) := policy.windowMs]
  }

  /** The key is counted in this window, if in any. */
  predicate SameWindow(policy: Policy, subject: Option<string>, windows: map<string, nat>) {
    var key := KeyOf(policy, subject.GetOr(""));
    key in windows ==> windows[key] == policy.windowMs
  }

  /** The pruned lists decide as the full history would, and go on standing for it. */
  lemma JudgeAgrees(policy: Policy, subject: Option<string>, reachable: bool, now: int, hits: map<string, seq<int>>,
                    history: map<string, seq<int>>, windows: map<string, nat>, clock: int)
    requires Store(hits, history, windows, clock) && clock <= now && SameWindow(policy, subject, windows)
    ensures Judge(policy, subject, reachable, now, hits) == Judge(policy, subject, reachable, now, history)
    ensures Store(Recorded(true, policy, subject, reachable, now, hits),
                  Recorded(false, policy, subject, reachable, now, history),
                  Widened(policy, subject, reachable, windows), now)
  {
    if Countable(subject, reachable) {
      StoreRecord(hits, history, windows, clock, KeyOf(policy, subject.value), policy.windowMs, now);
    } else {
      StoreTick(hits, history, windows, clock, now);
    }
  }

  /** A decision that could be counted allows the request exactly when the key's full history admits it, whatever has
      been pruned of it before the window. */
  lemma {:induction false} JudgeAdmits(policy: Policy, subject: string, now: int, lists: map<string, seq<int>>,
                                       past: seq<int>)
    requires subject != ""
    requires Live(Times(lists, KeyOf(policy, subject)), now - policy.windowMs) == Live(past, now - policy.windowMs)
    ensures Judge(policy, Some(subject), true, now, lists).allowed
       <==> Admitted(past + [now], policy.limit, policy.windowMs, |past|)
  {
    assert (past + [now])[..|past|] == past;
  }

  /** The decision in full. Without a subject, or with the counter out of reach, the failure mode decides: an open
      policy lets the request through and a closed one does not. Otherwise the times recorded under the policy's key
      for that subject decide: this request is one more than those later than the window's start. */
  lemma JudgeExactly(policy: Policy, subject: Option<string>, reachable: bool, now: int, lists: map<string, seq<int>>)
    ensures var d := Judge(policy, subject, reachable, now, lists);
      && d.policyId == policy.id && d.resetAt == now + policy.windowMs
      && (d.degraded <==> d.remaining.None?)
      && (d.degraded <==> subject.None? || subject.value == "" || !reachable)
      && (d.degraded ==> (d.allowed <==> policy.onCounterUnavailable == Open))
      && (!d.degraded ==>
            var key := policy.id + ":" + subject.value;
            var count := 1 + if key in lists then Later(lists[key], now - policy.windowMs) else 0;
            && (d.allowed <==> count <= policy.limit)
            && (d.allowed ==> d.remaining == Some(policy.limit - count)) && (!d.allowed ==> d.remaining == Some(0)))
  {
    if subject.Some? {
      var key := policy.id + ":" + subject.value;
      if key in lists { LiveCount(lists[key], now - policy.windowMs); }
    }
  }

  /** The policies of one scope, in order. */
  function OfScope(policies: seq<Policy>, scope: Scope): seq<Policy> {
    if policies == [] then []
    else (if policies[0].scope == scope then [policies[0]] else []) + OfScope(policies[1..], scope)
  }

  /** A stable sort by scope. */
  function IdentityFirst(policies: seq<Policy>): seq<Policy> {
    OfScope(policies, Identity) + OfScope(policies, Address)
  }

  /** The lists after the first `n` policies have been consulted. `reachable` says of each whether the counter was. */
  function After(prune: bool, ordered: seq<Policy>, n: nat, subjects: Subjects, reachable: nat -> bool, now: int,
                 lists: map<string, seq<int>>): map<string, seq<int>>
    requires n <= |ordered|
  {
    if n == 0 then lists
    else Recorded(prune, ordered[n - 1], SubjectOf(ordered[n - 1], subjects), reachable(n - 1), now,
                  After(prune, ordered, n - 1, subjects, reachable, now, lists))
  }

  function DecisionAt(prune: bool, ordered: seq<Policy>, i: nat, subjects: Subjects, reachable: nat -> bool, now: int,
                      lists: map<string, seq<int>>): Decision
    requires i < |ordered|
  {
    Judge(ordered[i], SubjectOf(ordered[i], subjects), reachable(i), now,
          After(prune, ordered, i, subjects, reachable, now, lists))
  }

  /** The first `n` policies all allow the request. */
  predicate AllAllow(prune: bool, ordered: seq<Policy>, n: nat, subjects: Subjects, reachable: nat -> bool, now: int,
                     lists: map<string, seq<int>>)
    requires n <= |ordered|
  {
    n == 0 || (AllAllow(prune, ordered, n - 1, subjects, reachable, now, lists)
               && DecisionAt(prune, ordered, n - 1, subjects, reachable, now, lists).allowed)
  }

  /** The answer when `n` policies have been consulted. */
  function AnswerAfter(prune: bool, ordered: seq<Policy>, n: nat, subjects: Subjects, reachable: nat -> bool, now: int,
                       lists: map<string, seq<int>>): Decision
    requires n <= |ordered|
  {
    if n == 0 then Decision(true, UNLIMITED, None, now, true)
    else DecisionAt(prune, ordered, n - 1, subjects, reachable, now, lists)
  }

  /** Each key is counted in one window, whichever policy it comes from. */
  ghost predicate ConsistentWindows(policies: seq<Policy>, subjects: Subjects, windows: map<string, nat>) {
    && (forall p :: p in policies ==> Keyed(p, subjects) in windows ==> windows[Keyed(p, subjects)] == p.windowMs)
    && (forall p,
        q :: p in policies && q in policies && Keyed(p, subjects) == Keyed(q, subjects) ==> p.windowMs == q.windowMs)
  }

  function Keyed(p: Policy, subjects: Subjects): string {
    KeyOf(p, SubjectOf(p, subjects).GetOr(""))
  }

  function WindowsAfter(ordered: seq<Policy>, n: nat, subjects: Subjects, reachable: nat -> bool,
                        windows: map<string, nat>): map<string, nat>
    requires n <= |ordered|
  {
    if n == 0 then windows
    else Widened(ordered[n - 1], SubjectOf(ordered[n - 1], subjects), reachable(n - 1),
                 WindowsAfter(ordered, n - 1, subjects, reachable, windows))
  }

  /** The two kinds of lists answer alike: the full history, and what the counter keeps of it. */
  ghost predicate AnswerAlike(ordered: seq<Policy>, n: nat, subjects: Subjects, reachable: nat -> bool, now: int,
                              hits: map<string, seq<int>>, history: map<string, seq<int>>)
    requires n <= |ordered|
  {
    && AllAllow(true, ordered, n, subjects, reachable, now, hits)
       == AllAllow(false, ordered, n, subjects, reachable, now, history)
    && AnswerAfter(true, ordered, n, subjects, reachable, now, hits)
       == AnswerAfter(false, ordered, n, subjects, reachable, now, history)
  }

  lemma {:induction false} AfterAgrees(ordered: seq<Policy>, n: nat, subjects: Subjects, reachable: nat -> bool,
                                       now: int,
                                       hits: map<string, seq<int>>, history: map<string, seq<int>>,
                                       windows: map<string, nat>, clock: int)
    requires Store(hits, history, windows, clock) && clock <= now && n <= |ordered|
    requires ConsistentWindows(ordered, subjects, windows)
    ensures Store(After(true, ordered, n, subjects, reachable, now, hits),
                  After(false, ordered, n, subjects, reachable, now, history),
                  WindowsAfter(ordered, n, subjects, reachable, windows), now)
    ensures ConsistentWindows(ordered, subjects, WindowsAfter(ordered, n, subjects, reachable, windows))
    ensures AnswerAlike(ordered, n, subjects, reachable, now, hits, history)
  {
    if n == 0 {
      StoreTick(hits, history, windows, clock, now);
    } else {
      AfterAgrees(ordered, n - 1, subjects, reachable, now, hits, history, windows, clock);
      var p := ordered[n - 1];
      assert p in ordered;
      JudgeAgrees(p, SubjectOf(p, subjects), reachable(n - 1), now,
                  After(true, ordered, n - 1, subjects, reachable, now, hits),
                  After(false, ordered, n - 1, subjects, reachable, now, history),
                  WindowsAfter(ordered, n - 1, subjects, reachable, windows), now);
    }
  }

  /** The key's list has lost what is not later than `cutoff` and gained `now`, at its end; no other list has
      changed. */
  ghost predicate Adds(lists: map<string, seq<int>>, after: map<string, seq<int>>, key: string, cutoff: int, now: int) {
    && key in after && after == lists[key := after[key]]
    && after[key] != [] && after[key][|after[key]| - 1] == now
    && (forall t :: t in after[key] <==> t == now || (key in lists && t in lists[key] && t > cutoff))
    && |after[key]| == 1 + if key in lists then Later(lists[key], cutoff) else 0
  }

  lemma RecordedExactly(policy: Policy, subject: Option<string>, reachable: bool, now: int,
                        lists: map<string, seq<int>>)
    ensures var after := Recorded(true, policy, subject, reachable, now, lists);
      if subject.None? || subject.value == "" || !reachable then after == lists
      else Adds(lists, after, policy.id + ":" + subject.value, now - policy.windowMs, now)
  {
    if Countable(subject, reachable) {
      var cutoff, was := now - policy.windowMs, Times(lists, policy.id + ":" + subject.value);
      LiveCount(was, cutoff);
      forall t ensures t in Live(was, cutoff) <==> t in was && t > cutoff { LiveMember(was, cutoff, t); }
    }
  }

  /** What a sweep leaves of the lists. */
  function Swept(lists: map<string, seq<int>>, cutoff: int): map<string, seq<int>> {
    map key | key in lists && Live(lists[key], cutoff) != [] :: Live(lists[key], cutoff)
  }

  method SweepLists(lists: map<string, seq<int>>, cutoff: int) returns (swept: map<string, seq<int>>)
    ensures swept == Swept(lists, cutoff)
  {
    swept := lists;
    var todo := lists.Keys;
    while todo != {}
      invariant todo <= swept.Keys <= lists.Keys
      invariant forall key :: key in todo ==> swept[key] == lists[key]
      invariant forall key :: key in lists && key !in todo ==> (key in swept <==> key in Swept(lists, cutoff))
      invariant forall key :: key in swept && key !in todo ==> swept[key] == Live(lists[key], cutoff)
      decreases todo
    {
      var key :| key in todo;
      todo := todo - {key};
      var live := Live(lists[key], cutoff);
      swept := if live == [] then swept - {key} else swept[key := live];
    }
  }

  lemma SweptTimes(lists: map<string, seq<int>>, cutoff: int)
    ensures forall key :: Times(Swept(lists, cutoff), key) == Live(Times(lists, key), cutoff)
  {
  }

  lemma SweepStands(hits: map<string, seq<int>>, history: map<string, seq<int>>, windows: map<string, nat>, clock: int,
                    now: int, sweep: nat)
    ensures Store(hits, history, windows, clock) && clock <= now && NoWider(hits, windows, sweep) ==>
      Store(Swept(hits, now - sweep), history, windows, now)
  {
    if Store(hits, history, windows, clock) && clock <= now && NoWider(hits, windows, sweep) {
      SweptTimes(hits, now - sweep);
      StoreSwept(hits, history, windows, clock, now, sweep, Swept(hits, now - sweep));
    }
  }

  /** Every list has lost exactly what is not later than `cutoff`, and is gone if nothing is left. */
  ghost predicate Forgets(lists: map<string, seq<int>>, after: map<string, seq<int>>, cutoff: int) {
    && (forall key :: key in after <==> key in lists && exists t :: t in lists[key] && t > cutoff)
    && (forall key, t :: key in after ==> (t in after[key] <==> t in lists[key] && t > cutoff))
    && (forall key :: key in after ==> |after[key]| == Later(lists[key], cutoff))
  }

  lemma SweptExactly(lists: map<string, seq<int>>, cutoff: int)
    ensures Forgets(lists, Swept(lists, cutoff), cutoff)
  {
    forall key | key in lists
      ensures Live(lists[key], cutoff) != [] <==> exists t :: t in lists[key] && t > cutoff
      ensures forall t :: t in Live(lists[key], cutoff) <==> t in lists[key] && t > cutoff
      ensures |Live(lists[key], cutoff)| == Later(lists[key], cutoff)
    {
      LiveCount(lists[key], cutoff);
      forall t ensures t in Live(lists[key], cutoff) <==> t in lists[key] && t > cutoff {
        LiveMember(lists[key], cutoff, t);
      }
      if Live(lists[key], cutoff) != [] { assert Live(lists[key], cutoff)[0] in Live(lists[key], cutoff); }
    }
  }

  class MemoryCounter {
    var hits: map<string, seq<int>>
    /** Every time recorded under each key, never pruned. */
    ghost var history: map<string, seq<int>>
    /** The window each key was last counted in. */
    ghost var windows: map<string, nat>
    ghost var clock: int

    /** The pruned lists stand for the full history. */
    ghost predicate Valid()
      reads this
    {
      Store(hits, history, windows, clock)
    }

    constructor (ghost now: int)
      ensures Valid() && hits == map[] && history == map[] && clock == now
    {
      hits, history, windows, clock := map[], map[], map[], now;
    }

    /** Counts what is kept of the key's list within the window, and this request. */
    method Increment(key: string, windowMs: nat, now: int) returns (count: nat)
      modifies this`hits
      ensures hits == old(hits)[key := Live(Times(old(hits), key), now - windowMs) + [now]]
      ensures count == |hits[key]|
    {
      var cutoff := now - windowMs;
      var existing := Live(if key in hits then hits[key] else [], cutoff);
      existing := existing + [now];
      hits := hits[key := existing];
      return |existing|;
    }

    /** Every list loses what is older than the sweep's window, and an empty list its key. Where no list is counted in
        a wider window, the store still stands for the same history: no later answer changes. */
    method Sweep(now: int, windowMs: nat)
      modifies this`hits, this`clock
      ensures clock == now && hits == Swept(old(hits), now - windowMs)
      ensures Forgets(old(hits), hits, now - windowMs)
      ensures old(Valid()) && old(clock) <= now && NoWider(old(hits), windows, windowMs) ==> Valid()
    {
      var swept := SweepLists(hits, now - windowMs);
      SweptExactly(hits, now - windowMs);
      SweepStands(hits, history, windows, clock, now, windowMs);
      hits := swept;
      clock := now;
    }

    /** What the full history and the windows become. */
    ghost method Note(policy: Policy, subject: Option<string>, reachable: bool, now: int)
      modifies this`history, this`windows, this`clock
      ensures history == Recorded(false, policy, subject, reachable, now, old(history))
      ensures windows == Widened(policy, subject, reachable, old(windows)) && clock == now
      ensures old(Valid()) && old(clock) <= now && SameWindow(policy, subject, old(windows)) ==>
        && Store(Recorded(true, policy, subject, reachable, now, hits), history, windows, clock)
        && Judge(policy, subject, reachable, now, hits) == Judge(policy, subject, reachable, now, old(history))
    {
      if Valid() && clock <= now && SameWindow(policy, subject, windows) {
        JudgeAgrees(policy, subject, reachable, now, hits, history, windows, clock);
      }
      history, windows, clock :=
        Recorded(false, policy, subject, reachable, now, history), Widened(policy, subject, reachable, windows), now;
    }

    /** Applies one policy to the lists as they are. While time does not run backwards and the key keeps its window, the
        pruned counter decides as the full history would. */
    method Check(policy: Policy, subject: Option<string>, reachable: bool, now: int) returns (d: Decision)
      modifies this
      ensures d == Judge(policy, subject, reachable, now, old(hits))
      ensures hits == Recorded(true, policy, subject, reachable, now, old(hits))
      ensures if d.degraded then hits == old(hits)
              else Adds(old(hits), hits, policy.id + ":" + subject.value, now - policy.windowMs, now)
      ensures history == Recorded(false, policy, subject, reachable, now, old(history))
      ensures windows == Widened(policy, subject, reachable, old(windows)) && clock == now
      ensures old(Valid()) && old(clock) <= now && SameWindow(policy, subject, old(windows)) ==>
        Valid() && d == Judge(policy, subject, reachable, now, old(history))
    {
      RecordedExactly(policy, subject, reachable, now, hits);
      Note(policy, subject, reachable, now);
      var resetAt := now + policy.windowMs;
      if subject.GetOr("") == "" || !reachable {
        return Decision(policy.onCounterUnavailable.Open?, policy.id, None, resetAt, true);
      }
      var count := Increment(KeyOf(policy, subject.value), policy.windowMs, now);
      var remaining: nat := if policy.limit > count then policy.limit - count else 0;
      return Decision(count <= policy.limit, policy.id, Some(remaining), resetAt, false);
    }

    /** Identity policies first, each in its given order: the first refusal is the answer and nothing after it is
        consulted; with no refusal the answer is the last policy's. */
    method CheckAll(policies: seq<Policy>, subjects: Subjects, reachable: nat -> bool, now: int)
      returns (d: Decision, ghost consulted: nat)
      modifies this
      ensures var ordered := IdentityFirst(policies);
        && consulted <= |ordered| && (d.allowed ==> consulted == |ordered|)
        && (consulted > 0 ==> AllAllow(true, ordered, consulted - 1, subjects, reachable, now, old(hits)))
        && d == AnswerAfter(true, ordered, consulted, subjects, reachable, now, old(hits))
        && hits == After(true, ordered, consulted, subjects, reachable, now, old(hits))
        && history == After(false, ordered, consulted, subjects, reachable, now, old(history))
      ensures var ordered := IdentityFirst(policies);
        old(Valid()) && old(clock) <= now && ConsistentWindows(ordered, subjects, old(windows)) ==>
        Valid() && AnswerAlike(ordered, consulted, subjects, reachable, now, old(hits), old(history))
      ensures policies == [] ==> d == Decision(true, "none", None, now, true)
      ensures consulted > 0 ==>
        var p := IdentityFirst(policies)[consulted - 1];
        d.policyId == p.id && d.resetAt == now + p.windowMs
    {
      ghost var ordered := IdentityFirst(policies);
      ghost var kept, past, counted, last := hits, history, windows, clock;
      d, consulted := CheckInOrder(IdentityFirst(policies), subjects, reachable, now);
      if Store(kept, past, counted, last) && last <= now && ConsistentWindows(ordered, subjects, counted) {
        AfterAgrees(ordered, consulted, subjects, reachable, now, kept, past, counted, last);
      }
    }

    method CheckInOrder(ordered: seq<Policy>, subjects: Subjects, reachable: nat -> bool, now: int)
      returns (d: Decision, ghost consulted: nat)
      modifies this
      ensures consulted <= |ordered| && (d.allowed ==> consulted == |ordered|)
      ensures consulted > 0 ==> AllAllow(true, ordered, consulted - 1, subjects, reachable, now, old(hits))
      ensures d == AnswerAfter(true, ordered, consulted, subjects, reachable, now, old(hits))
      ensures hits == After(true, ordered, consulted, subjects, reachable, now, old(hits))
      ensures history == After(false, ordered, consulted, subjects, reachable, now, old(history))
      ensures windows == WindowsAfter(ordered, consulted, subjects, reachable, old(windows)) && clock == now
    {
      ghost var kept, past, counted := hits, history, windows;
      clock := now;
      d := Decision(true, UNLIMITED, None, now, true);
      consulted := 0;
      for i := 0 to |ordered|
        invariant consulted == i && d.allowed && AllAllow(true, ordered, i, subjects, reachable, now, kept)
        invariant d == AnswerAfter(true, ordered, i, subjects, reachable, now, kept)
        invariant hits == After(true, ordered, i, subjects, reachable, now, kept)
        invariant history == After(false, ordered, i, subjects, reachable, now, past)
        invariant windows == WindowsAfter(ordered, i, subjects, reachable, counted)
        invariant clock == now
      {
        d := Check(ordered[i], SubjectOf(ordered[i], subjects), reachable(i), now);
        consulted := i + 1;
        if !d.allowed { return; }
      }
    }
  }

  // ---------- runs ----------

  /** A counter is asked and swept at times that never run backwards. */
  datatype Event =
    | Asked(policy: Policy, subject: Option<string>, reachable: bool, now: int)
    | Cleaned(now: int, windowMs: nat)

  /** The lists a new counter keeps after the first `n` events. */
  function Kept(events: seq<Event>, n: nat): map<string, seq<int>>
    requires n <= |events|
  {
    if n == 0 then map[] else
    match events[n - 1]
    case Asked(policy, subject, reachable, now) => Recorded(true, policy, subject, reachable, now, Kept(events, n - 1))
    case Cleaned(now, windowMs) => Swept(Kept(events, n - 1), now - windowMs)
  }

  predicate Forward(events: seq<Event>) {
    forall i, j :: 0 <= i < j < |events| ==> events[i].now <= events[j].now
  }

  /** The event is a request counted under this key. */
  predicate Counts(e: Event, key: string) {
    e.Asked? && Countable(e.subject, e.reachable) && KeyOf(e.policy, e.subject.value) == key
  }

  /** The key is always counted with this limit and window, and no sweep is narrower. */
  predicate Steady(e: Event, key: string, limit: nat, window: nat) {
    && (Counts(e, key) ==> e.policy.limit == limit && e.policy.windowMs == window)
    && (e.Cleaned? ==> window <= e.windowMs)
  }

  /** When the key's requests were made, the refused ones included. */
  function Requests(events: seq<Event>, key: string, n: nat): seq<int>
    requires n <= |events|
  {
    if n == 0 then []
    else Requests(events, key, n - 1) + if Counts(events[n - 1], key) then [events[n - 1].now] else []
  }

  /** How many of the decisions returned under the key in [from, from + window) were to allow. */
  function Granted(events: seq<Event>, key: string, window: nat, from: int, n: nat): nat
    requires n <= |events|
  {
    if n == 0 then 0 else
    var e := events[n - 1];
    Granted(events, key, window, from, n - 1)
      + if Counts(e, key) && from <= e.now < from + window
           && Judge(e.policy, e.subject, e.reachable, e.now, Kept(events, n - 1)).allowed then 1 else 0
  }

  lemma {:induction false} AdmissionsStable(times: seq<int>, more: seq<int>, limit: nat, window: nat, from: int, n: nat)
    requires n <= |times|
    ensures Admissions(times + more, limit, window, from, n) == Admissions(times, limit, window, from, n)
  {
    if n > 0 {
      AdmissionsStable(times, more, limit, window, from, n - 1);
      AdmittedStable(times, more, limit, window, n - 1);
    }
  }

  lemma Tick(kept: seq<int>, history: seq<int>, window: nat, clock: int, now: int)
    requires Counted(kept, history, window, clock) && clock <= now
    ensures Counted(kept, history, window, now)
  {
  }

  lemma {:induction false} AskedStep(e: Event, before: map<string, seq<int>>, key: string, past: seq<int>, limit: nat,
                                     window: nat)
    requires Counted(Times(before, key), past, window, e.now) && Steady(e, key, limit, window) && e.Asked?
    ensures Counted(Times(Recorded(true, e.policy, e.subject, e.reachable, e.now, before), key),
                    past + if Counts(e, key) then [e.now] else [], window, e.now)
  {
    var after := Recorded(true, e.policy, e.subject, e.reachable, e.now, before);
    if Counts(e, key) {
      assert Times(after, key) == Live(Times(before, key), e.now - window) + [e.now];
      Record(Times(before, key), past, window, e.now, e.now);
    } else {
      assert Times(after, key) == Times(before, key) && past + [] == past;
    }
  }

  lemma LiveAlike(kept: seq<int>, history: seq<int>, window: nat, now: int)
    requires Counted(kept, history, window, now)
    ensures Live(kept, now - window) == Live(history, now - window)
  {
  }

  /** The i-th decision is the admission of the i-th request. */
  lemma {:induction false} GrantedStep(e: Event, lists: map<string, seq<int>>, key: string, past: seq<int>, limit: nat,
                                       window: nat, from: int)
    requires Counts(e, key) && Steady(e, key, limit, window) && Counted(Times(lists, key), past, window, e.now)
    ensures Admissions(past + [e.now], limit, window, from, |past| + 1)
         == Admissions(past, limit, window, from, |past|)
            + if from <= e.now < from + window && Judge(e.policy, e.subject, e.reachable, e.now, lists).allowed
              then 1 else 0
  {
    LiveAlike(Times(lists, key), past, window, e.now);
    JudgeAdmits(e.policy, e.subject.value, e.now, lists, past);
    AdmissionsStable(past, [e.now], limit, window, from, |past|);
  }

  /** Along a run the key's kept list stands for every request made under it. */
  lemma {:induction false} KeptCounts(events: seq<Event>, key: string, limit: nat, window: nat, n: nat, clock: int)
    requires Forward(events) && n <= |events| && forall i :: 0 <= i < n ==> Steady(events[i], key, limit, window)
    requires n > 0 ==> clock >= events[n - 1].now
    ensures Counted(Times(Kept(events, n), key), Requests(events, key, n), window, clock)
  {
    if n > 0 {
      var e := events[n - 1];
      KeptCounts(events, key, limit, window, n - 1, e.now);
      var before, past := Kept(events, n - 1), Requests(events, key, n - 1);
      if e.Asked? {
        AskedStep(e, before, key, past, limit, window);
      } else {
        assert Steady(e, key, limit, window) && past + [] == past;
        SweptTimes(before, e.now - e.windowMs);
        SweepKey(Times(before, key), past, window, e.now, e.now, e.windowMs);
      }
      Tick(Times(Kept(events, n), key), Requests(events, key, n), window, e.now, clock);
    }
  }

  /** And the decisions returned are the admissions of the key's full history. */
  lemma {:induction false} GrantedAreAdmissions(events: seq<Event>, key: string, limit: nat, window: nat,
                                                from: int, n: nat)
    requires Forward(events) && n <= |events| && forall i :: 0 <= i < n ==> Steady(events[i], key, limit, window)
    ensures Granted(events, key, window, from, n)
         == Admissions(Requests(events, key, n), limit, window, from, |Requests(events, key, n)|)
  {
    if n > 0 {
      var e, past := events[n - 1], Requests(events, key, n - 1);
      GrantedAreAdmissions(events, key, limit, window, from, n - 1);
      if Counts(e, key) {
        KeptCounts(events, key, limit, window, n - 1, e.now);
        assert Steady(e, key, limit, window);
        GrantedStep(e, Kept(events, n - 1), key, past, limit, window, from);
      } else {
        assert past + [] == past;
      }
    }
  }

  /** However requests and sweeps come, of the decisions returned under one key in any half-open interval of its
      window's length at most `limit` allow, those taken by the failure mode aside. */
  lemma GrantedBounded(events: seq<Event>, key: string, limit: nat, window: nat, from: int, n: nat)
    requires Forward(events) && n <= |events| && forall i :: 0 <= i < n ==> Steady(events[i], key, limit, window)
    ensures Granted(events, key, window, from, n) <= limit
  {
    GrantedAreAdmissions(events, key, limit, window, from, n);
    AdmissionsBounded(Requests(events, key, n), limit, window, from, |Requests(events, key, n)|);
  }

  /** A request, a sweep and another request at the instant of the sweep. */
  function AskedTwice(policy: Policy, subject: string, sweep: nat, now: int): (events: seq<Event>)
    ensures |events| == 3
  {
    [Asked(policy, Some(subject), true, now), Cleaned(now + sweep, sweep),
     Asked(policy, Some(subject), true, now + sweep)]
  }

  lemma FirstListed(policy: Policy, subject: string, now: int)
    requires subject != ""
    ensures Times(Recorded(true, policy, Some(subject), true, now, map[]), KeyOf(policy, subject)) == [now]
  {
    assert Live([], now - policy.windowMs) == [];
  }

  lemma SweptAway(lists: map<string, seq<int>>, key: string, now: int)
    requires Times(lists, key) == [now]
    ensures Times(Swept(lists, now), key) == []
  {
    SweptTimes(lists, now);
    LiveSnoc([], now, now);
    assert [] + [now] == [now] && Live([], now) == [];
  }

  lemma SweepForgets(policy: Policy, subject: string, sweep: nat, now: int, events: seq<Event>, n: nat)
    requires subject != "" && events == AskedTwice(policy, subject, sweep, now) && n == 2
    ensures Times(Kept(events, n), KeyOf(policy, subject)) == []
  {
    var first := Kept(events, n - 1);
    assert Kept(events, n - 2) == map[];
    assert first == Recorded(true, policy, Some(subject), true, now, Kept(events, n - 2));
    FirstListed(policy, subject, now);
    SweptAway(first, KeyOf(policy, subject), now);
    assert now + sweep - sweep == now && Kept(events, n) == Swept(first, now);
  }

  /** A sweep narrower than the window undoes this: a request, a sweep that forgets it and another request are both
      allowed where one is the limit. */
  lemma NarrowSweepGrants(policy: Policy, subject: string, sweep: nat, now: int)
    requires policy.limit == 1 && subject != "" && sweep < policy.windowMs
    ensures var events := AskedTwice(policy, subject, sweep, now);
      Forward(events) && Granted(events, KeyOf(policy, subject), policy.windowMs, now, 3) == 2
  {
    var events, key := AskedTwice(policy, subject, sweep, now), KeyOf(policy, subject);
    SweepForgets(policy, subject, sweep, now, events, 2);
    FreshAllows(policy, subject, now, Kept(events, 0));
    FreshAllows(policy, subject, now + sweep, Kept(events, 2));
    assert Granted(events, key, policy.windowMs, now, 1) == 1;
    assert Granted(events, key, policy.windowMs, now, 2) == 1;
  }

  lemma FreshAllows(policy: Policy, subject: string, now: int, lists: map<string, seq<int>>)
    requires policy.limit > 0 && subject != "" && Times(lists, KeyOf(policy, subject)) == []
    ensures Judge(policy, Some(subject), true, now, lists).allowed
  {
  }

  // ---------- what is consulted ----------

  /** Consulting some policies records nothing under any other key: where an identity policy refuses, the address the
      request came from is not counted. */
  lemma {:induction false} OtherKeysUncounted(ordered: seq<Policy>, n: nat, subjects: Subjects,
                                              reachable: nat -> bool, now: int,
                                              lists: map<string, seq<int>>, key: string)
    requires n <= |ordered| && forall i :: 0 <= i < n ==> Keyed(ordered[i], subjects) != key
    ensures Times(After(true, ordered, n, subjects, reachable, now, lists), key) == Times(lists, key)
  {
    if n > 0 {
      OtherKeysUncounted(ordered, n - 1, subjects, reachable, now, lists, key);
    }
  }

  /** An identity policy looks at nobody's address and an address policy at nobody's identity: callers that agree on
      what the policies ask about get the same answer and leave the same lists. */
  lemma {:induction false} JudgedOnOwnSubject(prune: bool, ordered: seq<Policy>, n: nat, s: Subjects, u: Subjects,
                                              reachable: nat -> bool, now: int, lists: map<string, seq<int>>)
    requires n <= |ordered|
    requires forall i :: 0 <= i < n ==>
      if ordered[i].scope == Identity then s.identity == u.identity else s.address == u.address
    ensures After(prune, ordered, n, s, reachable, now, lists) == After(prune, ordered, n, u, reachable, now, lists)
    ensures AnswerAfter(prune, ordered, n, s, reachable, now, lists)
         == AnswerAfter(prune, ordered, n, u, reachable, now, lists)
  {
    if n > 0 { JudgedOnOwnSubject(prune, ordered, n - 1, s, u, reachable, now, lists); }
  }

  lemma {:induction false} OfScopeMember(policies: seq<Policy>, scope: Scope)
    ensures forall p :: p in OfScope(policies, scope) <==> p in policies && p.scope == scope
    ensures multiset(OfScope(policies, Identity)) + multiset(OfScope(policies, Address)) == multiset(policies)
  {
    if policies != [] {
      OfScopeMember(policies[1..], scope);
      assert policies == [policies[0]] + policies[1..];
    }
  }

  /** Every policy is in line exactly as often as it was given, and no address policy before an identity policy. */
  lemma IdentityFirstKeeps(policies: seq<Policy>)
    ensures multiset(IdentityFirst(policies)) == multiset(policies) && |IdentityFirst(policies)| == |policies|
    ensures forall p :: p in IdentityFirst(policies) <==> p in policies
    ensures forall i, j :: 0 <= i < j < |policies| && IdentityFirst(policies)[i].scope == Address ==>
      IdentityFirst(policies)[j].scope == Address
  {
    OfScopeMember(policies, Identity);
    OfScopeMember(policies, Address);
    var first, last := OfScope(policies, Identity), OfScope(policies, Address);
    assert |multiset(IdentityFirst(policies))| == |multiset(policies)|;
    forall i | 0 <= i < |policies|
      ensures IdentityFirst(policies)[i].scope == if i < |first| then Identity else Address
    {
      if i < |first| { assert first[i] in first; } else { assert last[i - |first|] in last; }
    }
  }
}
