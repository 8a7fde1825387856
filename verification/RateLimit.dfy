/**
 The limiter of src/net.rs for clients that present a wrong id: per address, at
 most eight attempts in a window of 30 seconds that opens with the first one.
 Entries older than 60 seconds are pruned on every call. Times are instants of
 a monotonic clock, in nanoseconds.
 */
module RateLimit {
  import opened Wrappers

  const SECOND: nat := 1_000_000_000
  const WINDOW: nat := 30 * SECOND
  const KEEP: nat := 60 * SECOND
  const LIMIT: nat := 8

  /** Counts are kept in 32 bits. */
  const COUNTS: nat := 0x1_0000_0000

  datatype Addr = V4(bits: nat) | V6(bits: nat)

  /** The key of an address: its bits, whichever the family. */
  function KeyOf(a: Addr): nat
  {
    match a
    case V4(bits) => bits
    case V6(bits) => bits
  }

  datatype Hit = Hit(count: nat, start: int)

  type Hits = map<nat, Hit>

  datatype Call = Call(key: nat, at: int)

  /** `duration_since`, which is zero for an instant that is still to come. */
  function Since(now: int, t: int): nat
  {
    if now < t then 0 else now - t
  }

  function Retained(hits: Hits, now: int): Hits
  {
    map k | k in hits && Since(now, hits[k].start) < KEEP :: hits[k]
  }

  /** One more, wrapping around. */
  function WrappingNext(count: nat): nat
  {
    if count + 1 == COUNTS then 0 else count + 1
  }

  /** A key's entry after a call: a new window when there is none or it is over, and one more call. */
  function Counted(entry: Option<Hit>, now: int): Hit
  {
    var e := if entry == None || Since(now, entry.value.start) > WINDOW then Hit(0, now) else entry.value;
    Hit(WrappingNext(e.count), e.start)
  }

  function Lookup(hits: Hits, key: nat): Option<Hit>
  {
    if key in hits then Some(hits[key]) else None
  }

  /** The table after a call. */
  function Recorded(hits: Hits, c: Call): Hits
  {
    var kept := Retained(hits, c.at);
    kept[c.key := Counted(Lookup(kept, c.key), c.at)]
  }

  // ----- Runs -----

  predicate InOrder(calls: seq<Call>)
  {
    forall i, j :: 0 <= i < j < |calls| ==> calls[i].at <= calls[j].at
  }

  function HitsAfter(calls: seq<Call>): Hits
  {
    if calls == [] then map[] else Recorded(HitsAfter(calls[..|calls| - 1]), calls[|calls| - 1])
  }

  /** The answer to the last call. */
  predicate Allowed(calls: seq<Call>)
    requires calls != []
  {
    HitsAfter(calls)[calls[|calls| - 1].key].count <= LIMIT
  }

  /** When the calls by one key came. */
  function TimesOf(calls: seq<Call>, key: nat): seq<int>
  {
    if calls == [] then []
    else
      var c := calls[|calls| - 1];
      TimesOf(calls[..|calls| - 1], key) + (if c.key == key then [c.at] else [])
  }

  // ----- A limiter for one key that never prunes -----

  /** The window of the last call: the position of the call that opened it. */
  function WindowStart(times: seq<int>): (s: nat)
    requires times != []
    ensures s < |times|
    decreases |times|
  {
    var n := |times| - 1;
    if n == 0 then 0
    else
      var s := WindowStart(times[..n]);
      if Since(times[n], times[s]) > WINDOW then n else s
  }

  function OwnEntry(times: seq<int>): Option<Hit>
  {
    if times == [] then None
    else Some(Counted(OwnEntry(times[..|times| - 1]), times[|times| - 1]))
  }

  predicate OwnAllowed(times: seq<int>)
    requires times != []
  {
    OwnEntry(times).value.count <= LIMIT
  }

  /** How many calls the current window holds, the last one included. */
  function InWindow(times: seq<int>): (k: nat)
    requires times != []
    ensures 1 <= k <= |times|
  {
    |times| - WindowStart(times)
  }

  /** What is left of a number of calls in 32 bits. */
  function Wrapped(k: nat): nat
  {
    k % COUNTS
  }

  lemma WrappedNext(k: nat)
    ensures WrappingNext(Wrapped(k)) == Wrapped(k + 1)
  {
  }

  lemma WrappedSmall(k: nat)
    requires k < COUNTS
    ensures Wrapped(k) == k
  {
  }

  /** What an entry counts: the calls of the current window, in 32 bits. */
  lemma {:induction false} EntryCountsWindow(times: seq<int>)
    requires times != []
    ensures OwnEntry(times) == Some(Hit(Wrapped(InWindow(times)), times[WindowStart(times)]))
    decreases |times|
  {
    var n := |times| - 1;
    var before := times[..n];
    if n == 0 {
      assert OwnEntry(before) == None;
    } else {
      EntryCountsWindow(before);
      assert times[WindowStart(before)] == before[WindowStart(before)];
      WrappedNext(InWindow(before));
    }
    WrappedNext(0);
  }

  // ----- Pruning is invisible, and keys do not interfere -----

  /** The table's entry for a key is the unpruned one, or it is gone because it is too old to matter. */
  predicate SameOrStale(pruned: Option<Hit>, own: Option<Hit>, now: int)
  {
    || pruned == own
    || (pruned == None && own.Some? && Since(now, own.value.start) >= KEEP)
  }

  /** An entry after pruning. */
  function Fresh(entry: Option<Hit>, now: int): Option<Hit>
  {
    if entry.Some? && Since(now, entry.value.start) < KEEP then entry else None
  }

  lemma LookupRecorded(hits: Hits, c: Call, key: nat)
    ensures Lookup(Recorded(hits, c), key) ==
            var kept := Fresh(Lookup(hits, key), c.at);
            if key == c.key then Some(Counted(kept, c.at)) else kept
  {
    var kept := Retained(hits, c.at);
    assert Lookup(kept, key) == Fresh(Lookup(hits, key), c.at);
  }

  /** What was pruned would have been counted afresh anyway. */
  lemma StaleCountsAfresh(pruned: Option<Hit>, own: Option<Hit>, now: int)
    requires SameOrStale(pruned, own, now)
    ensures Counted(Fresh(pruned, now), now) == Counted(own, now)
    ensures SameOrStale(Fresh(pruned, now), own, now)
  {
  }

  lemma StaleStaysStale(pruned: Option<Hit>, own: Option<Hit>, earlier: int, now: int)
    requires SameOrStale(pruned, own, earlier) && earlier <= now
    ensures SameOrStale(pruned, own, now)
  {
  }

  lemma {:induction false} TableFollowsOwn(calls: seq<Call>, key: nat, now: int)
    requires InOrder(calls) && (calls != [] ==> calls[|calls| - 1].at <= now)
    ensures SameOrStale(Lookup(HitsAfter(calls), key), OwnEntry(TimesOf(calls, key)), now)
    decreases |calls|
  {
    if calls != [] {
      var n := |calls| - 1;
      var before, c := calls[..n], calls[n];
      TableFollowsOwn(before, key, c.at);
      var own := TimesOf(before, key);
      LookupRecorded(HitsAfter(before), c, key);
      StaleCountsAfresh(Lookup(HitsAfter(before), key), OwnEntry(own), c.at);
      OwnEntryOfLast(own, c.at);
      StaleStaysStale(Lookup(HitsAfter(calls), key), OwnEntry(TimesOf(calls, key)), c.at, now);
    }
  }

  lemma OwnEntryOfLast(own: seq<int>, at: int)
    ensures OwnEntry(own + [at]) == Some(Counted(OwnEntry(own), at))
    ensures own + [] == own
  {
    assert (own + [at])[..|own|] == own;
  }

  /** The answer to a call is the one an unpruned limiter gives that sees that key's calls only. */
  lemma AnswersAreOwn(calls: seq<Call>)
    requires calls != [] && InOrder(calls)
    ensures var key := calls[|calls| - 1].key;
            TimesOf(calls, key) != [] && (Allowed(calls) <==> OwnAllowed(TimesOf(calls, key)))
  {
    var n := |calls| - 1;
    var before, c := calls[..n], calls[n];
    TableFollowsOwn(before, c.key, c.at);
    LookupRecorded(HitsAfter(before), c, c.key);
    StaleCountsAfresh(Lookup(HitsAfter(before), c.key), OwnEntry(TimesOf(before, c.key)), c.at);
    OwnEntryOfLast(TimesOf(before, c.key), c.at);
  }

  /** Right after a call, every entry left in the table opened less than 60 seconds before it. */
  lemma EntriesAreRecent(calls: seq<Call>, key: nat)
    requires calls != [] && InOrder(calls) && key in HitsAfter(calls)
    ensures Since(calls[|calls| - 1].at, HitsAfter(calls)[key].start) < KEEP
  {
  }

  // ----- When a call is denied -----

  predicate Sorted(times: seq<int>)
  {
    forall i, j :: 0 <= i < j < |times| ==> times[i] <= times[j]
  }

  lemma {:induction false} TimesSorted(calls: seq<Call>, key: nat)
    requires InOrder(calls)
    ensures Sorted(TimesOf(calls, key))
    ensures |TimesOf(calls, key)| <= |calls|
    ensures calls != [] ==>
              forall i :: 0 <= i < |TimesOf(calls, key)| ==> TimesOf(calls, key)[i] <= calls[|calls| - 1].at
    decreases |calls|
  {
    if calls != [] {
      var n := |calls| - 1;
      TimesSorted(calls[..n], key);
      assert n > 0 ==> calls[n - 1].at <= calls[n].at;
    }
  }

  /** Everything in the current window lies within the last 30 seconds. */
  lemma {:induction false} WindowIsRecent(times: seq<int>, j: nat)
    requires times != [] && Sorted(times) && WindowStart(times) <= j < |times|
    ensures 0 <= times[|times| - 1] - times[j] <= WINDOW
    decreases |times|
  {
    var n := |times| - 1;
    if n > 0 && WindowStart(times) < n {
      var before := times[..n];
      assert times[WindowStart(before)] <= times[j];
    }
  }

  /**
   When a call is denied: exactly when the number of calls in its window, itself
   included, exceeds eight in 32 bits. All of them came within the 30 seconds
   before it. So "denied exactly when eight calls came before it in its window"
   holds exactly when the window has not overrun, or its count has wrapped
   around to more than eight again.
   */
  lemma {:induction false} DeniedIff(times: seq<int>)
    requires times != [] && Sorted(times)
    ensures OwnAllowed(times) <==> Wrapped(InWindow(times)) <= LIMIT
    ensures (!OwnAllowed(times) <==> InWindow(times) - 1 >= LIMIT)
            <==> InWindow(times) <= LIMIT || Wrapped(InWindow(times)) > LIMIT
    ensures InWindow(times) < COUNTS ==> (!OwnAllowed(times) <==> InWindow(times) - 1 >= LIMIT)
    ensures forall j :: WindowStart(times) <= j < |times| ==> 0 <= times[|times| - 1] - times[j] <= WINDOW
  {
    EntryCountsWindow(times);
    if InWindow(times) < COUNTS {
      WrappedSmall(InWindow(times));
    }
    forall j | WindowStart(times) <= j < |times|
      ensures 0 <= times[|times| - 1] - times[j] <= WINDOW
    {
      WindowIsRecent(times, j);
    }
  }

  /** `k` calls at one instant. */
  function At(t: int, k: nat): seq<int>
  {
    seq(k, i => t)
  }

  lemma AtOneMore(t: int, k: nat)
    ensures At(t, k + 1) == At(t, k) + [t]
  {
  }

  lemma {:induction false} AtIsOneWindow(t: int, k: nat)
    requires k > 0
    ensures Sorted(At(t, k)) && WindowStart(At(t, k)) == 0
  {
    if k > 1 {
      AtIsOneWindow(t, k - 1);
      AtOneMore(t, k - 1);
      assert At(t, k)[..k - 1] == At(t, k - 1);
    }
  }

  /** Of 2^32 calls at one instant the last is allowed, though the one before it is denied. */
  lemma CountWraps(t: int)
    ensures InWindow(At(t, COUNTS)) - 1 >= LIMIT && OwnAllowed(At(t, COUNTS))
    ensures InWindow(At(t, COUNTS - 1)) - 1 >= LIMIT && !OwnAllowed(At(t, COUNTS - 1))
  {
    AtIsOneWindow(t, COUNTS);
    AtIsOneWindow(t, COUNTS - 1);
    DeniedIff(At(t, COUNTS));
    DeniedIff(At(t, COUNTS - 1));
  }

  // ----- The rate -----

  /** How many calls of one key were allowed from `a` to `b`. */
  function OwnAllowedIn(times: seq<int>, a: int, b: int): nat
  {
    if times == [] then 0
    else
      var n := |times| - 1;
      OwnAllowedIn(times[..n], a, b) + (if a <= times[n] <= b && OwnAllowed(times) then 1 else 0)
  }

  function AllowedIn(calls: seq<Call>, key: nat, a: int, b: int): nat
  {
    if calls == [] then 0
    else
      var n := |calls| - 1;
      AllowedIn(calls[..n], key, a, b)
      + (if calls[n].key == key && a <= calls[n].at <= b && Allowed(calls) then 1 else 0)
  }

  lemma {:induction false} AllowedInIsOwn(calls: seq<Call>, key: nat, a: int, b: int)
    requires InOrder(calls)
    ensures AllowedIn(calls, key, a, b) == OwnAllowedIn(TimesOf(calls, key), a, b)
    decreases |calls|
  {
    if calls != [] {
      var n := |calls| - 1;
      AllowedInIsOwn(calls[..n], key, a, b);
      var own := TimesOf(calls[..n], key);
      if calls[n].key == key {
        AnswersAreOwn(calls);
        assert TimesOf(calls, key) == own + [calls[n].at];
        assert (own + [calls[n].at])[..|own|] == own;
      } else {
        assert TimesOf(calls, key) == own;
      }
    }
  }

  /** How many windows the calls from `a` on fall into. */
  function Windows(times: seq<int>, a: int): nat
  {
    if times == [] || times[|times| - 1] < a then 0
    else
      var n := |times| - 1;
      var before := Windows(times[..n], a);
      if before == 0 then 1 else if WindowStart(times) == n then before + 1 else before
  }

  /** One if the first of these windows had opened before `a`, and zero otherwise. */
  function OpenedEarly(times: seq<int>, a: int): (e: nat)
    ensures e <= 1
  {
    if times == [] || times[|times| - 1] < a then 0
    else
      var n := |times| - 1;
      if Windows(times[..n], a) > 0 then OpenedEarly(times[..n], a)
      else if times[WindowStart(times)] < a then 1
      else 0
  }

  /** `s` comes at least `q` windows after `a`, and more than that if `q` is positive. */
  predicate Later(s: int, a: int, q: int)
  {
    s >= a + q * WINDOW && (q >= 1 ==> s > a + q * WINDOW)
  }

  lemma LaterStill(s: int, s': int, a: int, q: int)
    requires q >= 0 && Later(s, a, q) && s' - s > WINDOW
    ensures Later(s', a, q + 1)
  {
    assert (q + 1) * WINDOW == q * WINDOW + WINDOW;
  }

  /** The windows that open from `a` on open more than 30 seconds apart. */
  lemma {:induction false} WindowsAreApart(times: seq<int>, a: int)
    requires times != [] && Sorted(times) && Windows(times, a) > OpenedEarly(times, a)
    ensures Later(times[WindowStart(times)], a, Windows(times, a) - OpenedEarly(times, a) - 1)
    decreases |times|
  {
    var n := |times| - 1;
    var before := times[..n];
    var m: int, e: int := Windows(before, a), OpenedEarly(before, a);
    var q := m - e - 1;
    assert m > 0 ==> OpenedEarly(times, a) == e;
    if m > 0 && WindowStart(times) == n {
      assert Windows(times, a) == m + 1;
      if q >= 0 {
        WindowsAreApart(before, a);
        LaterStill(before[WindowStart(before)], times[n], a, q);
      }
    } else if m > 0 {
      assert Windows(times, a) == m;
      WindowsAreApart(before, a);
    }
  }

  /** How many of the first `w` calls of a window are allowed. */
  function Allowance(w: nat): nat
  {
    if w == 0 then 0 else Allowance(w - 1) + (if Wrapped(w) <= LIMIT then 1 else 0)
  }

  /** Nine in each full round of the count, and the first eight of the round that is under way. */
  lemma {:induction false} AllowanceIs(w: nat)
    ensures Allowance(w) == (w / COUNTS) * (LIMIT + 1) + (if w % COUNTS < LIMIT then w % COUNTS else LIMIT)
  {
    if w > 0 {
      AllowanceIs(w - 1);
      RoundOfNext(w - 1);
    }
  }

  lemma RoundOfNext(w: nat)
    ensures (w + 1) % COUNTS == 0 ==> w % COUNTS == COUNTS - 1 && (w + 1) / COUNTS == w / COUNTS + 1
    ensures (w + 1) % COUNTS != 0 ==> (w + 1) % COUNTS == w % COUNTS + 1 && (w + 1) / COUNTS == w / COUNTS
  {
  }

  lemma {:induction false} AllowanceGrows(v: nat, w: nat)
    requires v <= w
    ensures Allowance(v) <= Allowance(w)
    decreases w - v
  {
    if v < w {
      AllowanceGrows(v, w - 1);
    }
  }

  lemma AllowanceOfSmall(w: nat)
    requires w < COUNTS
    ensures Allowance(w) <= LIMIT
  {
    AllowanceIs(w);
  }

  lemma AllowanceOfOne()
    ensures Allowance(1) == 1
  {
    WrappedSmall(1);
    assert Allowance(0) == 0;
  }

  /** The most calls that any window held at a call from `a` to `b`, and at least one. */
  function LargestWindow(times: seq<int>, a: int, b: int): (m: nat)
    ensures m >= 1
  {
    if times == [] then 1
    else
      var n := |times| - 1;
      var m := LargestWindow(times[..n], a, b);
      if a <= times[n] <= b && InWindow(times) > m then InWindow(times) else m
  }

  lemma {:induction false} LargestOfPrefix(times: seq<int>, a: int, b: int, k: nat)
    requires k <= |times|
    ensures LargestWindow(times[..k], a, b) <= LargestWindow(times, a, b)
    decreases |times|
  {
    if k == |times| {
      assert times[..k] == times;
    } else {
      var before := times[..|times| - 1];
      LargestOfPrefix(before, a, b, k);
      assert before[..k] == times[..k];
    }
  }

  /** No call comes after `b`. */
  predicate EndsBy(times: seq<int>, b: int)
  {
    times == [] || times[|times| - 1] <= b
  }

  lemma OneMoreTerm(cap: nat, m: nat)
    ensures cap * (m + 1) == cap * m + cap
  {
  }

  /** Each window allows what its size allows, and the call that opened a window before `a` is one of those. */
  predicate WithinAllowance(times: seq<int>, a: int, b: int, cap: nat)
    requires times != []
  {
    && Windows(times, a) >= 1
    && OwnAllowedIn(times, a, b) <= cap * (Windows(times, a) - 1) + Allowance(InWindow(times)) - OpenedEarly(times, a)
  }

  lemma {:induction false} AllowedPerWindow(times: seq<int>, a: int, b: int, cap: nat)
    requires Sorted(times) && EndsBy(times, b) && cap >= Allowance(LargestWindow(times, a, b))
    ensures times == [] || times[|times| - 1] < a ==> OwnAllowedIn(times, a, b) == 0
    ensures times != [] && times[|times| - 1] >= a ==> WithinAllowance(times, a, b, cap)
    decreases |times|
  {
    if times != [] {
      var n := |times| - 1;
      var before := times[..n];
      LargestOfPrefix(times, a, b, n);
      AllowanceGrows(LargestWindow(before, a, b), LargestWindow(times, a, b));
      AllowedPerWindow(before, a, b, cap);
      if before != [] && before[n - 1] >= a {
        NextInInterval(times, a, b, cap);
      } else if times[n] >= a {
        FirstOfInterval(times, a);
        EntryCountsWindow(times);
      }
    }
  }

  lemma NextInInterval(times: seq<int>, a: int, b: int, cap: nat)
    requires |times| > 1 && Sorted(times) && EndsBy(times, b) && cap >= Allowance(LargestWindow(times, a, b))
    requires times[|times| - 2] >= a && WithinAllowance(times[..|times| - 1], a, b, cap)
    ensures WithinAllowance(times, a, b, cap)
  {
    var before := times[..|times| - 1];
    OneMoreAllowed(times, a, b);
    assert OpenedEarly(times, a) == OpenedEarly(before, a);
    if WindowStart(times) == |times| - 1 {
      assert Windows(times, a) == Windows(before, a) + 1 && InWindow(times) == 1;
      AllowanceOfOne();
      AllowanceOfPrefix(times, a, b, cap);
      OneMoreWindow(OwnAllowedIn(before, a, b), cap, Windows(before, a), Allowance(InWindow(before)), OpenedEarly(times, a));
    } else {
      assert Windows(times, a) == Windows(before, a) && InWindow(times) == InWindow(before) + 1;
    }
  }

  lemma OneMoreWindow(x: int, cap: nat, m: nat, last: nat, early: int)
    requires m >= 1 && last <= cap && x <= cap * (m - 1) + last - early
    ensures x <= cap * m - early
  {
    OneMoreTerm(cap, m - 1);
  }

  lemma OneMoreAllowed(times: seq<int>, a: int, b: int)
    requires times != []
    ensures OwnAllowedIn(times, a, b) <=
            OwnAllowedIn(times[..|times| - 1], a, b) + (if Wrapped(InWindow(times)) <= LIMIT then 1 else 0)
  {
    EntryCountsWindow(times);
  }

  lemma AllowanceOfPrefix(times: seq<int>, a: int, b: int, cap: nat)
    requires |times| > 1 && cap >= Allowance(LargestWindow(times, a, b)) && a <= times[|times| - 2] <= b
    ensures Allowance(InWindow(times[..|times| - 1])) <= cap
  {
    var before := times[..|times| - 1];
    AllowanceGrows(InWindow(before), LargestWindow(before, a, b));
    LargestOfPrefix(times, a, b, |times| - 1);
    AllowanceGrows(LargestWindow(before, a, b), LargestWindow(times, a, b));
  }

  /** The first call from `a` on is the first of its window, or the window had opened before `a` with an allowed call. */
  lemma FirstOfInterval(times: seq<int>, a: int)
    requires times != [] && Sorted(times) && times[|times| - 1] >= a && Windows(times[..|times| - 1], a) == 0
    ensures OpenedEarly(times, a) == 0 <==> InWindow(times) == 1
    ensures (if Wrapped(InWindow(times)) <= LIMIT then 1 else 0) <= Allowance(InWindow(times)) - OpenedEarly(times, a)
  {
    var n := |times| - 1;
    NothingBefore(times[..n], a);
    AllowanceOfOne();
    if InWindow(times) > 1 {
      AllowanceGrows(1, InWindow(times) - 1);
    }
  }

  lemma NothingBefore(times: seq<int>, a: int)
    requires Sorted(times) && Windows(times, a) == 0
    ensures forall i :: 0 <= i < |times| ==> times[i] < a
  {
  }

  function CeilDiv(t: nat, d: nat): nat
    requires d > 0
  {
    (t + d - 1) / d
  }

  lemma BelowCeil(m: nat, t: nat, d: nat)
    requires d > 0 && m * d < t
    ensures m + 1 <= CeilDiv(t, d)
  {
    var q := CeilDiv(t, d);
    assert (q + 1) * d == q * d + d;
    assert q * d + d > t + d - 1;
    assert m >= q ==> m * d >= q * d;
  }

  /** Calls after `b` add nothing. */
  lemma {:induction false} OnlyUpTo(times: seq<int>, a: int, b: int) returns (k: nat)
    requires Sorted(times)
    ensures k <= |times| && OwnAllowedIn(times, a, b) == OwnAllowedIn(times[..k], a, b)
    ensures k > 0 ==> times[k - 1] <= b
    decreases |times|
  {
    if times == [] || times[|times| - 1] <= b {
      k := |times|;
      assert times[..k] == times;
    } else {
      var before := times[..|times| - 1];
      k := OnlyUpTo(before, a, b);
      assert before[..k] == times[..k];
    }
  }

  lemma CapSum(x: int, cap: nat, m: nat, e: nat, limit: nat)
    requires m >= 1 && cap >= 1 && e <= 1 && m <= limit + e && x <= cap * (m - 1) + cap - e
    ensures x <= cap * limit + cap - 1
  {
    OneMoreTerm(cap, m - 1);
    OneMoreTerm(cap, limit);
    MoreTerms(cap, m, limit + e);
  }

  lemma MoreTerms(cap: nat, m: nat, limit: nat)
    requires m <= limit
    ensures cap * m <= cap * limit
  {
  }

  /** In general, a window counts for as many calls as the largest one in the interval allows. */
  lemma OwnRateBound(times: seq<int>, a: int, length: nat)
    requires Sorted(times) && length > 0
    ensures var cap := Allowance(LargestWindow(times, a, a + length));
            OwnAllowedIn(times, a, a + length) <= cap * CeilDiv(length, WINDOW) + cap - 1
  {
    var b := a + length;
    var cap := Allowance(LargestWindow(times, a, b));
    AllowanceOfOne();
    AllowanceGrows(1, LargestWindow(times, a, b));
    var k := OnlyUpTo(times, a, b);
    var ts := times[..k];
    LargestOfPrefix(times, a, b, k);
    AllowanceGrows(LargestWindow(ts, a, b), LargestWindow(times, a, b));
    AllowedPerWindow(ts, a, b, cap);
    if k > 0 && ts[k - 1] >= a {
      WindowsInInterval(ts, a, length);
      AllowanceGrows(InWindow(ts), LargestWindow(ts, a, b));
      CapSum(OwnAllowedIn(ts, a, b), cap, Windows(ts, a), OpenedEarly(ts, a), CeilDiv(length, WINDOW));
    } else {
      MoreTerms(cap, 0, CeilDiv(length, WINDOW));
    }
  }

  lemma WindowsInInterval(ts: seq<int>, a: int, length: nat)
    requires ts != [] && Sorted(ts) && a <= ts[|ts| - 1] <= a + length && length > 0
    ensures Windows(ts, a) <= CeilDiv(length, WINDOW) + OpenedEarly(ts, a)
  {
    var q: int := Windows(ts, a) as int - OpenedEarly(ts, a) as int - 1;
    if q >= 0 {
      WindowsAreApart(ts, a);
      assert ts[WindowStart(ts)] <= a + length;
      LaterIn(ts[WindowStart(ts)], a, q, length);
    }
  }

  lemma LaterIn(s: int, a: int, q: nat, length: nat)
    requires Later(s, a, q) && s <= a + length && length > 0
    ensures q + 1 <= CeilDiv(length, WINDOW)
  {
    BelowCeil(q, length, WINDOW);
  }

  /** What the limit promises for any length of time. */
  function Promise(length: nat): nat
  {
    LIMIT * CeilDiv(length, WINDOW) + LIMIT - 1
  }

  /**
   The rate: from any instant, for any length of time, one key is allowed at
   most 8 * ceil(length / 30 s) + 7 calls, whatever else is called, as long as
   none of its windows holds 2^32 calls by one that comes in that time: 15 in
   any 30 seconds. In general the eight is what the largest window allows.
   */
  lemma RateBound(calls: seq<Call>, key: nat, a: int, length: nat)
    requires InOrder(calls) && length > 0
    ensures var cap := Allowance(LargestWindow(TimesOf(calls, key), a, a + length));
            AllowedIn(calls, key, a, a + length) <= cap * CeilDiv(length, WINDOW) + cap - 1
    ensures LargestWindow(TimesOf(calls, key), a, a + length) < COUNTS ==>
              AllowedIn(calls, key, a, a + length) <= Promise(length)
  {
    var times := TimesOf(calls, key);
    var w := LargestWindow(times, a, a + length);
    TimesSorted(calls, key);
    AllowedInIsOwn(calls, key, a, a + length);
    OwnRateBound(times, a, length);
    if w < COUNTS {
      AllowanceOfSmall(w);
      SmallerCap(Allowance(w), LIMIT, CeilDiv(length, WINDOW));
    }
  }

  lemma SmallerCap(cap: nat, limit: nat, m: nat)
    requires cap <= limit
    ensures cap * m <= limit * m
  {
  }

  lemma {:induction false} AllowedAtOnce(t: int, k: nat, b: int)
    requires t <= b
    ensures OwnAllowedIn(At(t, k), t, b) == Allowance(k)
  {
    if k > 0 {
      AllowedAtOnce(t, k - 1, b);
      AtOneMore(t, k - 1);
      assert At(t, k)[..k - 1] == At(t, k - 1);
      AtIsOneWindow(t, k);
      EntryCountsWindow(At(t, k));
    }
  }

  lemma AllowanceAtWrap()
    ensures Allowance(COUNTS + 6) == 2 * LIMIT - 1 && Allowance(COUNTS + 7) == 2 * LIMIT
  {
    AllowanceIs(COUNTS + 6);
    AllowanceIs(COUNTS + 7);
  }

  /** Calls at one instant keep to fifteen in 30 seconds exactly while fewer than 2^32 + 7 come. */
  lemma FloodKeepsBoundIff(t: int, k: nat)
    ensures OwnAllowedIn(At(t, k), t, t + WINDOW) <= 2 * LIMIT - 1 <==> k < COUNTS + 7
  {
    AllowedAtOnce(t, k, t + WINDOW);
    AllowanceAtWrap();
    if k < COUNTS + 7 {
      AllowanceGrows(k, COUNTS + 6);
    } else {
      AllowanceGrows(COUNTS + 7, k);
    }
  }

  // ----- The bound is reached -----

  lemma SortedWith(times: seq<int>, t: int, k: nat)
    requires Sorted(times) && (times != [] ==> times[|times| - 1] <= t)
    ensures Sorted(times + At(t, k))
  {
    assert forall i :: 0 <= i < |times| ==> times[i] <= times[|times| - 1];
  }

  /** What one more call does to the window and to the number of calls allowed. */
  lemma OneMoreAt(times: seq<int>, t: int, a: int, b: int)
    requires times != []
    ensures WindowStart(times + [t]) ==
            if Since(t, times[WindowStart(times)]) > WINDOW then |times| else WindowStart(times)
    ensures OwnAllowedIn(times + [t], a, b) ==
            OwnAllowedIn(times, a, b) + (if a <= t <= b && Wrapped(InWindow(times + [t])) <= LIMIT then 1 else 0)
  {
    assert (times + [t])[..|times|] == times;
    EntryCountsWindow(times + [t]);
  }

  lemma GrownBy(times: seq<int>, t: int, k: nat)
    ensures times + At(t, k + 1) == times + At(t, k) + [t]
    ensures times + At(t, 0) == times
    ensures k > 0 ==> (times + At(t, k))[|times|] == t
  {
  }

  /** A call after the window is over opens another and is allowed. */
  lemma OpensWindow(times: seq<int>, t: int, a: int, b: int)
    requires times != [] && Since(t, times[WindowStart(times)]) > WINDOW && a <= t <= b
    ensures WindowStart(times + [t]) == |times|
    ensures OwnAllowedIn(times + [t], a, b) == OwnAllowedIn(times, a, b) + 1
  {
    OneMoreAt(times, t, a, b);
    WrappedSmall(1);
  }

  /** One at the instant at which the window opened is allowed while the window holds less than eight. */
  lemma JoinsWindow(times: seq<int>, t: int, a: int, b: int)
    requires times != [] && times[WindowStart(times)] == t && InWindow(times) < LIMIT && a <= t <= b
    ensures WindowStart(times + [t]) == WindowStart(times)
    ensures OwnAllowedIn(times + [t], a, b) == OwnAllowedIn(times, a, b) + 1
  {
    OneMoreAt(times, t, a, b);
    WrappedSmall(InWindow(times) + 1);
  }

  /** Up to eight calls that open a new window are all allowed. */
  lemma {:induction false} NewWindow(times: seq<int>, t: int, k: nat, a: int, b: int)
    requires times != [] && Since(t, times[WindowStart(times)]) > WINDOW && 1 <= k <= LIMIT && a <= t <= b
    ensures WindowStart(times + At(t, k)) == |times|
    ensures OwnAllowedIn(times + At(t, k), a, b) == OwnAllowedIn(times, a, b) + k
  {
    GrownBy(times, t, k - 1);
    if k == 1 {
      OpensWindow(times, t, a, b);
    } else {
      NewWindow(times, t, k - 1, a, b);
      JoinsWindow(times + At(t, k - 1), t, a, b);
    }
  }

  /** A call opens a window, seven follow at its last moment, and then windows of eight, each at the earliest instant. */
  function Burst(n: nat): seq<int>
  {
    if n == 0 then [0] + At(WINDOW, 7) else Burst(n - 1) + At(OpensAt(n), LIMIT)
  }

  lemma BurstOpens(b: int)
    requires b >= WINDOW
    ensures WindowStart([0] + At(WINDOW, 7)) == 0
    ensures OwnAllowedIn([0] + At(WINDOW, 7), WINDOW, b) == 7
  {
    LongWindow(7, b);
    AllowanceIs(LIMIT);
  }

  /** The opening of a window after `n` full ones. */
  function OpensAt(n: nat): nat
  {
    n * (WINDOW + 1)
  }

  lemma {:induction false} BurstIsAllowed(n: nat, b: int)
    requires b >= OpensAt(n) && b >= WINDOW
    ensures var t := Burst(n);
            && t != [] && Sorted(t) && t[WindowStart(t)] == OpensAt(n)
            && t[|t| - 1] == (if n == 0 then WINDOW else OpensAt(n))
            && OwnAllowedIn(t, WINDOW, b) == LIMIT * n + 7
  {
    if n == 0 {
      BurstOpens(b);
      SortedWith([0], WINDOW, 7);
    } else {
      assert OpensAt(n) == OpensAt(n - 1) + WINDOW + 1;
      BurstIsAllowed(n - 1, b);
      NextBurst(Burst(n - 1), OpensAt(n - 1), OpensAt(n), b);
    }
  }

  /** Eight calls at the first instant after a window. */
  lemma NextBurst(times: seq<int>, start: int, t: int, b: int)
    requires times != [] && Sorted(times) && times[WindowStart(times)] == start && times[|times| - 1] <= t
    requires t == start + WINDOW + 1 && WINDOW <= t <= b
    ensures var more := times + At(t, LIMIT);
            && more != [] && Sorted(more) && more[WindowStart(more)] == t == more[|more| - 1]
            && OwnAllowedIn(more, WINDOW, b) == OwnAllowedIn(times, WINDOW, b) + LIMIT
  {
    NewWindow(times, t, LIMIT, WINDOW, b);
    SortedWith(times, t, LIMIT);
    GrownBy(times, t, LIMIT);
  }

  lemma CeilOfMultiple(n: nat)
    ensures CeilDiv(n * WINDOW, WINDOW) == n
  {
  }

  /** The bound is reached on every multiple of 30 seconds, up to 30 s times their number of nanoseconds. */
  lemma RateBoundReached(n: nat)
    requires 1 <= n <= WINDOW
    ensures Sorted(Burst(n))
    ensures OwnAllowedIn(Burst(n), WINDOW, WINDOW + n * WINDOW) == LIMIT * CeilDiv(n * WINDOW, WINDOW) + LIMIT - 1
  {
    BurstIsAllowed(n, WINDOW + n * WINDOW);
    CeilOfMultiple(n);
  }

  // ----- When the bound holds -----

  /** A call opens a window, `w - 1` follow at its last moment, and eight at the first instant after it. */
  function Overrun(w: nat): seq<int>
    requires w > 0
  {
    [0] + At(WINDOW, w - 1) + At(WINDOW + 1, LIMIT)
  }

  lemma LargestOneMore(times: seq<int>, t: int, a: int, b: int)
    ensures var m := LargestWindow(times, a, b);
            LargestWindow(times + [t], a, b) ==
            if a <= t <= b && InWindow(times + [t]) > m then InWindow(times + [t]) else m
  {
    assert (times + [t])[..|times|] == times;
  }

  /** One more call in a window. */
  lemma SameWindow(times: seq<int>, t: int, a: int, b: int)
    requires times != [] && Since(t, times[WindowStart(times)]) <= WINDOW && a <= t <= b
    ensures var w, m := InWindow(times) + 1, LargestWindow(times, a, b);
            && WindowStart(times + [t]) == WindowStart(times)
            && OwnAllowedIn(times + [t], a, b) == OwnAllowedIn(times, a, b) + (if Wrapped(w) <= LIMIT then 1 else 0)
            && LargestWindow(times + [t], a, b) == if w > m then w else m
  {
    OneMoreAt(times, t, a, b);
    LargestOneMore(times, t, a, b);
  }

  /** A window of `w` calls, all but the first from the instant `WINDOW` on. */
  predicate Filled(times: seq<int>, b: int, w: nat)
  {
    && times != [] && |times| == w && times[0] == 0 && WindowStart(times) == 0
    && OwnAllowedIn(times, WINDOW, b) + 1 == Allowance(w) && LargestWindow(times, WINDOW, b) == w
  }

  lemma FilledFurther(times: seq<int>, b: int, w: nat)
    requires Filled(times, b, w) && b >= WINDOW
    ensures Filled(times + [WINDOW], b, w + 1)
  {
    SameWindow(times, WINDOW, WINDOW, b);
  }

  /** The first window: all its calls but the one that opened it come in the interval. */
  lemma {:induction false} LongWindow(k: nat, b: int)
    requires b >= WINDOW
    ensures Filled([0] + At(WINDOW, k), b, k + 1)
  {
    if k == 0 {
      OnlyOneCall(0, WINDOW, b);
      GrownBy([0], WINDOW, 0);
      AllowanceOfOne();
    } else {
      LongWindow(k - 1, b);
      GrownBy([0], WINDOW, k - 1);
      FilledFurther([0] + At(WINDOW, k - 1), b, k);
    }
  }

  lemma OnlyOneCall(t: int, a: int, b: int)
    requires t < a
    ensures WindowStart([t]) == 0 && OwnAllowedIn([t], a, b) == 0 && LargestWindow([t], a, b) == 1
  {
    assert [t][..0] == [];
    assert OwnAllowedIn([], a, b) == 0 && LargestWindow([], a, b) == 1;
  }

  /** A new window of at most eight calls is not the largest beside one of eight or more. */
  lemma {:induction false} LargestStays(times: seq<int>, t: int, k: nat, a: int, b: int)
    requires times != [] && Since(t, times[WindowStart(times)]) > WINDOW && k <= LIMIT && a <= t <= b
    requires LargestWindow(times, a, b) >= LIMIT
    ensures LargestWindow(times + At(t, k), a, b) == LargestWindow(times, a, b)
  {
    if k == 0 {
      GrownBy(times, t, 0);
    } else {
      LargestStays(times, t, k - 1, a, b);
      GrownBy(times, t, k - 1);
      LargestOneMore(times + At(t, k - 1), t, a, b);
      assert InWindow(times + At(t, k)) == k by { NewWindow(times, t, k, a, b); }
    }
  }

  /** A window of 2^32 calls or more, and then eight: more than fifteen are allowed in 30 seconds. */
  lemma OverrunBreaksBound(w: nat)
    requires w >= COUNTS
    ensures Sorted(Overrun(w)) && LargestWindow(Overrun(w), WINDOW, 2 * WINDOW) == w
    ensures OwnAllowedIn(Overrun(w), WINDOW, 2 * WINDOW) > 2 * LIMIT - 1
  {
    var first := [0] + At(WINDOW, w - 1);
    LongWindow(w - 1, 2 * WINDOW);
    AllowanceOfWrap(w);
    NewWindow(first, WINDOW + 1, LIMIT, WINDOW, 2 * WINDOW);
    LargestStays(first, WINDOW + 1, LIMIT, WINDOW, 2 * WINDOW);
    OverrunSorted(w);
  }

  lemma AllowanceOfWrap(w: nat)
    requires w >= COUNTS
    ensures Allowance(w) > LIMIT
  {
    AllowanceIs(COUNTS);
    AllowanceGrows(COUNTS, w);
  }

  lemma OverrunSorted(w: nat)
    requires w > 0
    ensures Sorted(Overrun(w))
  {
    SortedWith([0], WINDOW, w - 1);
    SortedWith([0] + At(WINDOW, w - 1), WINDOW + 1, LIMIT);
  }

  /** Calls by one key at these times. */
  function CallsAt(key: nat, times: seq<int>): (calls: seq<Call>)
    ensures |calls| == |times|
  {
    seq(|times|, i requires 0 <= i < |times| => Call(key, times[i]))
  }

  lemma {:induction false} TimesOfCallsAt(key: nat, times: seq<int>)
    ensures TimesOf(CallsAt(key, times), key) == times
  {
    if times != [] {
      var n := |times| - 1;
      TimesOfCallsAt(key, times[..n]);
      assert CallsAt(key, times)[..n] == CallsAt(key, times[..n]);
      assert times == times[..n] + [times[n]];
    }
  }

  /** The largest window of a key's calls in the interval holds `w`. */
  predicate HasLargest(calls: seq<Call>, key: nat, a: int, length: nat, w: nat)
  {
    InOrder(calls) && length > 0 && LargestWindow(TimesOf(calls, key), a, a + length) == w
  }

  predicate KeepsPromise(calls: seq<Call>, key: nat, a: int, length: nat)
  {
    AllowedIn(calls, key, a, a + length) <= Promise(length)
  }

  /** The promise is kept by all runs whose largest window is `w`, in every interval, exactly if `w` is below 2^32. */
  lemma PromiseKeptIff(w: nat)
    ensures (forall calls, key, a, length :: HasLargest(calls, key, a, length, w) ==> KeepsPromise(calls, key, a, length))
            <==> w < COUNTS
  {
    if w < COUNTS {
      forall calls, key, a, length | HasLargest(calls, key, a, length, w)
        ensures KeepsPromise(calls, key, a, length)
      {
        RateBound(calls, key, a, length);
      }
    } else {
      BrokenPromise(w, 0);
      assert !KeepsPromise(CallsAt(0, Overrun(w)), 0, WINDOW, WINDOW);
    }
  }

  lemma BrokenPromise(w: nat, key: nat)
    requires w >= COUNTS
    ensures var calls := CallsAt(key, Overrun(w));
            HasLargest(calls, key, WINDOW, WINDOW, w) && !KeepsPromise(calls, key, WINDOW, WINDOW)
  {
    var calls := CallsAt(key, Overrun(w));
    OverrunBreaksBound(w);
    CallsInOrder(key, Overrun(w));
    TimesOfCallsAt(key, Overrun(w));
    AllowedInIsOwn(calls, key, WINDOW, 2 * WINDOW);
    CeilOfMultiple(1);
  }

  lemma CallsInOrder(key: nat, times: seq<int>)
    requires Sorted(times)
    ensures InOrder(CallsAt(key, times))
  {
  }

  // ----- Keys -----

  predicate IsAddress(a: Addr)
  {
    match a
    case V4(bits) => bits < 0x1_0000_0000
    case V6(bits) => bits < 0x1_0000_0000_0000_0000_0000_0000_0000_0000
  }

  /** Two addresses share a budget exactly when they are equal, or one is the IPv6 address ::a.b.c.d of the other. */
  lemma SharedBudget(a: Addr, b: Addr)
    requires IsAddress(a) && IsAddress(b)
    ensures KeyOf(a) == KeyOf(b) <==> a == b || (a.V4? != b.V4? && a.bits == b.bits)
  {
  }

  // ----- The limiter -----

  lemma StaysInOrder(calls: seq<Call>, c: Call)
    requires InOrder(calls) && (calls != [] ==> calls[|calls| - 1].at <= c.at)
    ensures InOrder(calls + [c])
    ensures (calls + [c])[..|calls|] == calls && (calls + [c])[|calls|] == c
  {
    assert forall i :: 0 <= i < |calls| ==> calls[i].at <= calls[|calls| - 1].at;
  }

  lemma TableOfLast(calls: seq<Call>, c: Call)
    ensures HitsAfter(calls + [c]) == Recorded(HitsAfter(calls), c)
  {
    assert (calls + [c])[..|calls|] == calls;
  }

  lemma TimesOfLast(calls: seq<Call>, c: Call)
    ensures TimesOf(calls + [c], c.key) == TimesOf(calls, c.key) + [c.at]
  {
    assert (calls + [c])[..|calls|] == calls;
  }

  /** What one more call does to the table, and how it is answered: by the calls of its own key in its window. */
  lemma LastCall(calls: seq<Call>, c: Call)
    requires InOrder(calls) && (calls != [] ==> calls[|calls| - 1].at <= c.at)
    ensures var calls', times := calls + [c], TimesOf(calls, c.key) + [c.at];
            && InOrder(calls') && HitsAfter(calls') == Recorded(HitsAfter(calls), c)
            && (Allowed(calls') <==> Recorded(HitsAfter(calls), c)[c.key].count <= LIMIT)
            && (Allowed(calls') <==> Wrapped(InWindow(times)) <= LIMIT)
            && (InWindow(times) < COUNTS ==> (Allowed(calls') <==> InWindow(times) - 1 < LIMIT))
  {
    StaysInOrder(calls, c);
    TableOfLast(calls, c);
    TimesOfLast(calls, c);
    AnswersAreOwn(calls + [c]);
    TimesSorted(calls + [c], c.key);
    DeniedIff(TimesOf(calls + [c], c.key));
  }

  class RateLimiter {
    var hits: Hits

    /** The calls made so far. */
    ghost var calls: seq<Call>

    ghost predicate Valid()
      reads this
    {
      InOrder(calls) && hits == HitsAfter(calls)
    }

    constructor ()
      ensures Valid() && calls == []
    {
      hits, calls := map[], [];
    }

    /** Records a failed attempt and says whether it may be answered with details. */
    method Allow(addr: Addr, now: int) returns (ok: bool)
      requires Valid()
      requires calls != [] ==> calls[|calls| - 1].at <= now
      modifies this
      ensures Valid() && calls == old(calls) + [Call(KeyOf(addr), now)]
      ensures ok <==> Allowed(calls)
      ensures var times := TimesOf(old(calls), KeyOf(addr)) + [now];
              && (ok <==> Wrapped(InWindow(times)) <= LIMIT)
              && (InWindow(times) < COUNTS ==> (ok <==> InWindow(times) - 1 < LIMIT))
    {
      var key := KeyOf(addr);
      hits := Retained(hits, now);
      var e := if key in hits then hits[key] else Hit(0, now);
      if Since(now, e.start) > WINDOW {
        e := Hit(0, now);
      }
      e := Hit(WrappingNext(e.count), e.start);
      hits := hits[key := e];
      ok := e.count <= LIMIT;

      assert hits == Recorded(old(hits), Call(key, now));
      LastCall(calls, Call(key, now));
      calls := calls + [Call(key, now)];
    }
  }
}
