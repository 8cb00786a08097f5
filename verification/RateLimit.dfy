/** The limiter: one bucket per key in memory, counted at the door and read after an await. */
module RateLimit {
  import opened Prelude

  datatype Rule = Rule(max: nat, windowSeconds: nat)
  {
    function Length(): nat { windowSeconds * 1000 }
  }

  datatype Window = Window(count: nat, resetAt: int)

  datatype Verdict = Verdict(ok: bool, retryAfterSeconds: int)

  predicate Opens(window: Option<Window>, now: int) { window.None? || window.value.resetAt <= now }

  /** A request's effect on its key's window: a new one opens when the last is over. */
  function Hit(window: Option<Window>, now: int, length: nat): Window {
    if Opens(window, now) then Window(1, now + length) else Window(window.value.count + 1, window.value.resetAt)
  }

  /** `Math.ceil(milliseconds / 1000)`. */
  function CeilSeconds(milliseconds: int): int { (milliseconds + 999) / 1000 }

  function Judge(window: Window, max: nat, asked: int): Verdict {
    if window.count > max then Verdict(false, CeilSeconds(window.resetAt - asked)) else Verdict(true, 0)
  }

  // ---------- the store ----------

  class Bucket {
    var count: nat
    const resetAt: int

    constructor (resetAt: int)
      ensures count == 1 && this.resetAt == resetAt
    {
      count := 1;
      this.resetAt := resetAt;
    }

    function View(): Window
      reads this
    {
      Window(count, resetAt)
    }
  }

  class InMemoryStore {
    var buckets: map<Str, Bucket>

    constructor ()
      ensures buckets == map[] && Valid()
    {
      buckets := map[];
    }

    /** No two keys share a bucket. */
    ghost predicate Valid()
      reads this
    {
      forall k, l | k in buckets && l in buckets && buckets[k] == buckets[l] :: k == l
    }

    function At(key: Str): Option<Window>
      reads this, buckets.Values
    {
      if key in buckets then Some(buckets[key].View()) else None
    }

    /** Counts the request and hands out the bucket itself, not a copy. */
    method Incr(key: Str, windowSeconds: nat, now: int) returns (bucket: Bucket)
      requires Valid()
      modifies this, if Opens(At(key), now) then {} else {buckets[key]}
      ensures Valid() && buckets == old(buckets)[key := bucket]
      ensures At(key) == Some(Hit(old(At(key)), now, windowSeconds * 1000))
      ensures forall k | k != key :: At(k) == old(At(k))
      ensures if Opens(old(At(key)), now) then fresh(bucket) else bucket == old(buckets[key])
    {
      if key !in buckets || buckets[key].resetAt <= now {
        bucket := new Bucket(now + windowSeconds * 1000);
        buckets := buckets[key := bucket];
        return;
      }
      bucket := buckets[key];
      bucket.count := bucket.count + 1;
    }
  }

  /** The second half of a request, after its await: the bucket is read as it stands by then. */
  method Settle(bucket: Bucket, max: nat, asked: int) returns (verdict: Verdict)
    ensures verdict == Judge(bucket.View(), max, asked)
  {
    if bucket.count > max {
      return Verdict(false, CeilSeconds(bucket.resetAt - asked));
    }
    verdict := Verdict(true, 0);
  }

  /** A whole request nobody interrupts; `asked` and `now` are the two readings of the clock. */
  method Limit(store: InMemoryStore, disabled: bool, key: Str, rule: Rule, asked: int, now: int)
    returns (verdict: Verdict)
    requires store.Valid()
    modifies store, if Opens(store.At(key), now) then {} else {store.buckets[key]}
    ensures store.Valid()
    ensures forall k | k != key || disabled :: store.At(k) == old(store.At(k))
    ensures !disabled ==> store.At(key) == Some(Hit(old(store.At(key)), now, rule.Length()))
    ensures verdict == if disabled then Verdict(true, 0)
      else Judge(Hit(old(store.At(key)), now, rule.Length()), rule.max, asked)
  {
    if disabled {
      return Verdict(true, 0);
    }
    var bucket := store.Incr(key, rule.windowSeconds, now);
    verdict := Settle(bucket, rule.max, asked);
  }

  // ---------- all the requests for one key, in any interleaving ----------

  /** `seen` is the count the request found when it read its bucket; None while it waits. */
  datatype Request = Request(window: nat, now: int, seen: Option<nat>)

  /** Every window the key has had; the last one is the bucket in the store. */
  datatype State = State(windows: seq<Window>, requests: seq<Request>)

  datatype Event = Arrive(now: int) | Read(request: nat)

  function Last(windows: seq<Window>): Option<Window> {
    if windows == [] then None else Some(windows[|windows| - 1])
  }

  function Counted(windows: seq<Window>, now: int, length: nat): seq<Window> {
    var hit := Hit(Last(windows), now, length);
    if Opens(Last(windows), now) then windows + [hit] else windows[|windows| - 1 := hit]
  }

  /** The clock never runs backwards, and a request reads its bucket once, after arriving. */
  predicate Enabled(s: State, e: Event) {
    match e
    case Arrive(now) => s.requests == [] || s.requests[|s.requests| - 1].now <= now
    case Read(i) => i < |s.requests| && s.requests[i].seen.None? && s.requests[i].window < |s.windows|
  }

  function Next(rule: Rule, s: State, e: Event): State
    requires Enabled(s, e)
  {
    match e
    case Arrive(now) =>
      var windows := Counted(s.windows, now, rule.Length());
      State(windows, s.requests + [Request(|windows| - 1, now, None)])
    case Read(i) =>
      var r := s.requests[i];
      s.(requests := s.requests[i := r.(seen := Some(s.windows[r.window].count))])
  }

  ghost predicate Run(rule: Rule, states: seq<State>, events: seq<Event>) {
    && |states| == |events| + 1 && states[0] == State([], [])
    && forall i | 0 <= i < |events| ::
         Enabled(states[i], events[i]) && states[i + 1] == Next(rule, states[i], events[i])
  }

  predicate Admitted(rule: Rule, r: Request) { r.seen.Some? && r.seen.value <= rule.max }

  function One(b: bool): nat { if b then 1 else 0 }

  function Min(a: nat, b: nat): nat { if a <= b then a else b }

  function Arrivals(rs: seq<Request>, w: nat): nat {
    if rs == [] then 0
    else Arrivals(rs[..|rs| - 1], w) + One(rs[|rs| - 1].window == w)
  }

  /** How many of window w's requests were let in. */
  function Admissions(rule: Rule, rs: seq<Request>, w: nat): nat {
    if rs == [] then 0
    else Admissions(rule, rs[..|rs| - 1], w) + One(rs[|rs| - 1].window == w && Admitted(rule, rs[|rs| - 1]))
  }

  /** A request's place in its window, from 1. */
  function Place(rs: seq<Request>, i: nat): nat
    requires i < |rs|
  {
    Arrivals(rs[..i + 1], rs[i].window)
  }

  // ---------- what every run keeps ----------

  ghost predicate WindowKept(rule: Rule, s: State, w: nat)
    requires w < |s.windows|
  {
    s.windows[w].count == Arrivals(s.requests, w)
  }

  ghost predicate RequestKept(rule: Rule, s: State, i: nat)
    requires i < |s.requests|
  {
    var r := s.requests[i];
    && r.window < |s.windows|
    && s.windows[r.window].resetAt - rule.Length() <= r.now < s.windows[r.window].resetAt
    && (r.seen.Some? ==> Place(s.requests, i) <= r.seen.value <= s.windows[r.window].count)
  }

  /** Windows follow each other without overlapping. */
  ghost predicate Apart(rule: Rule, windows: seq<Window>) {
    forall v, w | 0 <= v < w < |windows| :: windows[v].resetAt + rule.Length() <= windows[w].resetAt
  }

  ghost predicate Kept(rule: Rule, s: State) {
    && (forall w | 0 <= w < |s.windows| :: WindowKept(rule, s, w))
    && (forall i | 0 <= i < |s.requests| :: RequestKept(rule, s, i))
    && Apart(rule, s.windows)
    && (forall i | 0 <= i < |s.requests| :: s.requests[i].now <= s.requests[|s.requests| - 1].now)
    && (s.requests == [] <==> s.windows == [])
    && (s.requests != [] ==> s.requests[|s.requests| - 1].window == |s.windows| - 1)
  }

  lemma {:induction false} ArrivalsGrow(rs: seq<Request>, n: nat, w: nat)
    requires n <= |rs|
    ensures Arrivals(rs[..n], w) <= Arrivals(rs, w)
    decreases |rs|
  {
    if n < |rs| {
      assert rs[..|rs| - 1][..n] == rs[..n];
      ArrivalsGrow(rs[..|rs| - 1], n, w);
    } else {
      assert rs[..n] == rs;
    }
  }

  lemma {:induction false} ArrivalsAbsent(rs: seq<Request>, w: nat)
    requires forall i | 0 <= i < |rs| :: rs[i].window != w
    ensures Arrivals(rs, w) == 0
    decreases |rs|
  {
    if rs != [] {
      ArrivalsAbsent(rs[..|rs| - 1], w);
    }
  }

  /** Reading a bucket moves no request to another window. */
  lemma {:induction false} ArrivalsUnread(rs: seq<Request>, i: nat, seen: Option<nat>, w: nat)
    requires i < |rs|
    ensures Arrivals(rs[i := rs[i].(seen := seen)], w) == Arrivals(rs, w)
    decreases |rs|
  {
    var after := rs[i := rs[i].(seen := seen)];
    if i < |rs| - 1 {
      assert after[..|rs| - 1] == rs[..|rs| - 1][i := rs[i].(seen := seen)];
      ArrivalsUnread(rs[..|rs| - 1], i, seen, w);
    } else {
      assert after[..|rs| - 1] == rs[..|rs| - 1];
    }
  }

  lemma ArriveKeeps(rule: Rule, s: State, now: int)
    requires rule.windowSeconds > 0 && Kept(rule, s) && Enabled(s, Arrive(now))
    ensures Kept(rule, Next(rule, s, Arrive(now)))
  {
    var t := Next(rule, s, Arrive(now));
    var w := |t.windows| - 1;
    var r := t.requests[|s.requests|];
    assert t.requests[..|s.requests|] == s.requests;
    forall v | 0 <= v < |t.windows| ensures WindowKept(rule, t, v) {
      if v < |s.windows| {
        assert WindowKept(rule, s, v);
      } else {
        forall i | 0 <= i < |s.requests| ensures s.requests[i].window != v { assert RequestKept(rule, s, i); }
        ArrivalsAbsent(s.requests, v);
      }
    }
    forall i | 0 <= i < |t.requests| ensures RequestKept(rule, t, i) {
      if i < |s.requests| {
        assert RequestKept(rule, s, i);
        assert t.requests[..i + 1] == s.requests[..i + 1];
      } else if s.requests != [] {
        assert RequestKept(rule, s, |s.requests| - 1);
      }
    }
  }

  lemma ReadKeeps(rule: Rule, s: State, i: nat)
    requires Kept(rule, s) && Enabled(s, Read(i))
    ensures Kept(rule, Next(rule, s, Read(i)))
  {
    var t := Next(rule, s, Read(i));
    var seen := t.requests[i].seen;
    forall v | 0 <= v < |t.windows| ensures WindowKept(rule, t, v) {
      assert WindowKept(rule, s, v);
      ArrivalsUnread(s.requests, i, seen, v);
    }
    forall j | 0 <= j < |t.requests| ensures RequestKept(rule, t, j) {
      assert RequestKept(rule, s, j);
      PlaceUnread(s.requests, i, seen, j);
      ArrivalsGrow(s.requests, j + 1, s.requests[j].window);
      assert WindowKept(rule, s, s.requests[j].window);
    }
  }

  lemma PlaceUnread(rs: seq<Request>, i: nat, seen: Option<nat>, j: nat)
    requires i < |rs| && j < |rs|
    ensures Place(rs[i := rs[i].(seen := seen)], j) == Place(rs, j)
  {
    var after := rs[i := rs[i].(seen := seen)];
    if i <= j {
      assert after[..j + 1] == rs[..j + 1][i := rs[i].(seen := seen)];
      ArrivalsUnread(rs[..j + 1], i, seen, rs[j].window);
    } else {
      assert after[..j + 1] == rs[..j + 1];
    }
  }

  lemma {:induction false} RunKeeps(rule: Rule, states: seq<State>, events: seq<Event>)
    requires rule.windowSeconds > 0 && Run(rule, states, events)
    ensures Kept(rule, states[|events|])
    decreases |events|
  {
    if events != [] {
      var n := |events| - 1;
      RunKeeps(rule, states[..n + 1], events[..n]);
      match events[n]
      case Arrive(now) => ArriveKeeps(rule, states[n], now);
      case Read(i) => ReadKeeps(rule, states[n], i);
    }
  }

  // ---------- the store runs these steps ----------

  /** `had` are the buckets key ever had; each request holds the one it was handed, and counts are shared. */
  ghost predicate Holds(store: InMemoryStore, key: Str, had: seq<Bucket>, held: seq<Bucket>, s: State)
    reads store, had
  {
    && |had| == |s.windows|
    && (forall v | 0 <= v < |had| :: had[v].View() == s.windows[v])
    && (forall v, w | 0 <= v < w < |had| :: had[v] != had[w])
    && (if had == [] then key !in store.buckets else key in store.buckets && store.buckets[key] == had[|had| - 1])
    && |held| == |s.requests|
    && (forall i | 0 <= i < |held| :: s.requests[i].window < |had| && held[i] == had[s.requests[i].window])
  }

  ghost predicate Told(rule: Rule, rs: seq<Request>, verdicts: seq<Option<Verdict>>) {
    && |verdicts| == |rs|
    && forall i | 0 <= i < |rs| ::
         && (verdicts[i].Some? <==> rs[i].seen.Some?)
         && (verdicts[i].Some? ==> (verdicts[i].value.ok <==> Admitted(rule, rs[i])))
  }

  method Enter(rule: Rule, store: InMemoryStore, key: Str, now: int, ghost had: seq<Bucket>, held: seq<Bucket>,
               ghost s: State)
    returns (bucket: Bucket, ghost had': seq<Bucket>)
    requires store.Valid() && Holds(store, key, had, held, s) && Enabled(s, Arrive(now))
    modifies store, if Opens(store.At(key), now) then {} else {store.buckets[key]}
    ensures store.Valid() && Holds(store, key, had', held + [bucket], Next(rule, s, Arrive(now)))
    ensures had' == had || (had' == had + [bucket] && fresh(bucket))
  {
    assert store.At(key) == Last(s.windows);
    ghost var opens := Opens(store.At(key), now);
    bucket := store.Incr(key, rule.windowSeconds, now);
    had' := if opens then had + [bucket] else had;
    assert bucket.View() == Last(Counted(s.windows, now, rule.Length())).value;
    forall v | 0 <= v < |had| && had[v] != bucket ensures had[v].View() == s.windows[v] {
      assert had[v].View() == old(had[v].View());
    }
  }

  lemma ReadTold(rule: Rule, store: InMemoryStore, key: Str, had: seq<Bucket>, held: seq<Bucket>, s: State, i: nat,
                 verdicts: seq<Option<Verdict>>, verdict: Verdict)
    requires Holds(store, key, had, held, s) && Told(rule, s.requests, verdicts) && Enabled(s, Read(i))
    requires verdict.ok <==> held[i].count <= rule.max
    ensures var t := Next(rule, s, Read(i));
      Holds(store, key, had, held, t) && Told(rule, t.requests, verdicts[i := Some(verdict)])
  {
  }

  /**
   * The store, hit and read back in any order the event loop allows, takes the states of the run: each
   * request that has read its bucket was told what the run says.
   */
  method Interleaved(rule: Rule, key: Str, events: seq<Event>, ghost states: seq<State>)
    returns (store: InMemoryStore, verdicts: seq<Option<Verdict>>)
    requires rule.windowSeconds > 0 && Run(rule, states, events)
    ensures store.At(key) == Last(states[|events|].windows) && Told(rule, states[|events|].requests, verdicts)
  {
    store := new InMemoryStore();
    verdicts := [];
    var held: seq<Bucket> := [];
    ghost var had: seq<Bucket> := [];
    for n := 0 to |events|
      invariant fresh(store) && store.Valid() && fresh(had)
      invariant Holds(store, key, had, held, states[n]) && Told(rule, states[n].requests, verdicts)
    {
      assert Enabled(states[n], events[n]) && states[n + 1] == Next(rule, states[n], events[n]);
      match events[n] {
        case Arrive(now) =>
          var bucket: Bucket;
          bucket, had := Enter(rule, store, key, now, had, held, states[n]);
          held, verdicts := held + [bucket], verdicts + [None];
        case Read(i) =>
          var verdict := Settle(held[i], rule.max, held[i].resetAt);
          ReadTold(rule, store, key, had, held, states[n], i, verdicts, verdict);
          verdicts := verdicts[i := Some(verdict)];
      }
    }
  }

  // ---------- how many get in ----------

  /** No request finds fewer than those up to and including itself. */
  ghost predicate CountsSelf(rs: seq<Request>) {
    forall i | 0 <= i < |rs| && rs[i].seen.Some? :: Place(rs, i) <= rs[i].seen.value
  }

  /** Window w's first `max` requests were all let in. */
  ghost predicate FirstAdmitted(rule: Rule, rs: seq<Request>, w: nat) {
    forall i | 0 <= i < |rs| && rs[i].window == w && Place(rs, i) <= rule.max :: Admitted(rule, rs[i])
  }

  lemma PlaceOfPrefix(rs: seq<Request>, n: nat, i: nat)
    requires i < n <= |rs|
    ensures Place(rs[..n], i) == Place(rs, i)
  {
    assert rs[..n][..i + 1] == rs[..i + 1];
  }

  lemma {:induction false} AdmissionsExactly(rule: Rule, rs: seq<Request>, w: nat)
    requires CountsSelf(rs)
    ensures Admissions(rule, rs, w) <= Min(Arrivals(rs, w), rule.max)
    ensures Admissions(rule, rs, w) == Min(Arrivals(rs, w), rule.max) <==> FirstAdmitted(rule, rs, w)
    decreases |rs|
  {
    if rs != [] {
      var n := |rs| - 1;
      var pre := rs[..n];
      forall i | 0 <= i < n ensures pre[i] == rs[i] && Place(pre, i) == Place(rs, i) { PlaceOfPrefix(rs, n, i); }
      assert rs[..n + 1] == rs;
      AdmissionsExactly(rule, pre, w);
      FirstAdmittedLast(rule, rs, w);
      assert rs[n].seen.Some? ==> Place(rs, n) <= rs[n].seen.value;
    }
  }

  lemma FirstAdmittedLast(rule: Rule, rs: seq<Request>, w: nat)
    requires rs != []
    ensures FirstAdmitted(rule, rs, w)
      <==> (FirstAdmitted(rule, rs[..|rs| - 1], w)
            && (rs[|rs| - 1].window == w && Arrivals(rs, w) <= rule.max ==> Admitted(rule, rs[|rs| - 1])))
  {
    var n := |rs| - 1;
    var pre := rs[..n];
    forall i | 0 <= i < n ensures pre[i] == rs[i] && Place(pre, i) == Place(rs, i) { PlaceOfPrefix(rs, n, i); }
    assert rs[..n + 1] == rs;
    if FirstAdmitted(rule, rs, w) {
      forall i | 0 <= i < n && pre[i].window == w && Place(pre, i) <= rule.max ensures Admitted(rule, pre[i]) {
        assert rs[i].window == w && Place(rs, i) <= rule.max;
      }
      assert rs[n].window == w ==> Place(rs, n) == Arrivals(rs, w);
    }
  }

  lemma KeptCounts(rule: Rule, s: State)
    requires Kept(rule, s)
    ensures CountsSelf(s.requests)
  {
    forall i | 0 <= i < |s.requests| && s.requests[i].seen.Some?
      ensures Place(s.requests, i) <= s.requests[i].seen.value
    {
      assert RequestKept(rule, s, i);
    }
  }

  // ---------- which requests get in, by the order of events alone ----------

  /** When each window ends, by the times of arrival: nothing else opens one. */
  function Ends(rule: Rule, events: seq<Event>): seq<int> {
    if events == [] then []
    else
      var pre := Ends(rule, events[..|events| - 1]);
      match events[|events| - 1]
      case Arrive(now) => if pre == [] || pre[|pre| - 1] <= now then pre + [now + rule.Length()] else pre
      case Read(_) => pre
  }

  /** The window each arrival enters, in order of arrival. */
  function Entered(rule: Rule, events: seq<Event>): seq<int> {
    if events == [] then []
    else
      var pre := Entered(rule, events[..|events| - 1]);
      if events[|events| - 1].Arrive? then pre + [|Ends(rule, events)| - 1] else pre
  }

  /** How many of the arrivals entered window w. */
  function Into(entered: seq<int>, w: int): nat { multiset(entered)[w] }

  /** Request i read its bucket while no more than `max` had entered window w. */
  ghost predicate ReadEarly(rule: Rule, events: seq<Event>, i: nat, w: int) {
    exists f | 0 <= f < |events| :: events[f] == Read(i) && Into(Entered(rule, events[..f]), w) <= rule.max
  }

  /** Each of the first `max` arrivals into window w reads its bucket before one more than `max` have arrived. */
  ghost predicate ReadInTime(rule: Rule, events: seq<Event>, w: nat) {
    var entered := Entered(rule, events);
    forall i | 0 <= i < |entered| && entered[i] == w && Into(entered[..i + 1], w) <= rule.max ::
      ReadEarly(rule, events, i, w)
  }

  ghost predicate WasRead(events: seq<Event>, i: nat) { exists f | 0 <= f < |events| :: events[f] == Read(i) }

  /** Each request is in the window its arrival entered, and windows end when the arrivals say. */
  ghost predicate Placed(ends: seq<int>, entered: seq<int>, s: State) {
    && |s.windows| == |ends|
    && (forall v | 0 <= v < |ends| :: s.windows[v].resetAt == ends[v])
    && |s.requests| == |entered|
    && (forall i | 0 <= i < |entered| :: s.requests[i].window == entered[i])
  }

  /** What the events alone say of the state they lead to. */
  ghost predicate Foretold(rule: Rule, events: seq<Event>, s: State) {
    && Placed(Ends(rule, events), Entered(rule, events), s)
    && (forall i | 0 <= i < |s.requests| && s.requests[i].seen.Some? :: WasRead(events, i))
    && (forall f | 0 <= f < |events| && events[f].Read? :: ReadSaw(rule, events, s.requests, f))
  }

  /** The count found is the number of arrivals into the window up to the moment of reading. */
  ghost predicate ReadSaw(rule: Rule, events: seq<Event>, rs: seq<Request>, f: nat)
    requires f < |events| && events[f].Read?
  {
    var i := events[f].request;
    i < |rs| && rs[i].seen == Some(Into(Entered(rule, events[..f]), rs[i].window))
  }

  lemma {:induction false} ArrivalsEntered(rs: seq<Request>, entered: seq<int>, w: nat)
    requires |rs| == |entered| && forall i | 0 <= i < |rs| :: rs[i].window == entered[i]
    ensures Arrivals(rs, w) == Into(entered, w)
    decreases |rs|
  {
    if rs != [] {
      var n := |rs| - 1;
      ArrivalsEntered(rs[..n], entered[..n], w);
      assert entered == entered[..n] + [entered[n]];
    }
  }

  lemma ReadsForetold(rule: Rule, events: seq<Event>, s: State, e: Event)
    requires Kept(rule, s) && Foretold(rule, events, s) && Enabled(s, e)
    ensures var t := Next(rule, s, e);
      forall f | 0 <= f <= |events| && (events + [e])[f].Read? :: ReadSaw(rule, events + [e], t.requests, f)
  {
    var after, t := events + [e], Next(rule, s, e);
    forall f | 0 <= f <= |events| && after[f].Read? ensures ReadSaw(rule, after, t.requests, f) {
      assert after[..f] == events[..f];
      if f < |events| {
        assert ReadSaw(rule, events, s.requests, f);
      } else {
        assert events[..f] == events;
        assert WindowKept(rule, s, s.requests[e.request].window);
        ArrivalsEntered(s.requests, Entered(rule, events), s.requests[e.request].window);
      }
    }
  }

  lemma ReadersForetold(rule: Rule, events: seq<Event>, s: State, e: Event, i: nat)
    requires Foretold(rule, events, s) && Enabled(s, e)
    requires i < |Next(rule, s, e).requests| && Next(rule, s, e).requests[i].seen.Some?
    ensures WasRead(events + [e], i)
  {
    if i < |s.requests| && s.requests[i].seen.Some? {
      var f :| 0 <= f < |events| && events[f] == Read(i);
      assert (events + [e])[f] == Read(i);
    } else {
      assert (events + [e])[|events|] == Read(i);
    }
  }

  lemma PlacedStep(rule: Rule, events: seq<Event>, s: State, e: Event)
    requires Placed(Ends(rule, events), Entered(rule, events), s) && Enabled(s, e)
    ensures Placed(Ends(rule, events + [e]), Entered(rule, events + [e]), Next(rule, s, e))
  {
    assert (events + [e])[..|events|] == events;
  }

  lemma ForetoldStep(rule: Rule, events: seq<Event>, s: State, e: Event)
    requires Kept(rule, s) && Foretold(rule, events, s) && Enabled(s, e)
    ensures Foretold(rule, events + [e], Next(rule, s, e))
  {
    var t := Next(rule, s, e);
    PlacedStep(rule, events, s, e);
    ReadsForetold(rule, events, s, e);
    forall i | 0 <= i < |t.requests| && t.requests[i].seen.Some? ensures WasRead(events + [e], i) {
      ReadersForetold(rule, events, s, e, i);
    }
  }

  lemma {:induction false} RunForetold(rule: Rule, states: seq<State>, events: seq<Event>)
    requires rule.windowSeconds > 0 && Run(rule, states, events)
    ensures Foretold(rule, events, states[|events|])
    decreases |events|
  {
    if events != [] {
      var n := |events| - 1;
      RunForetold(rule, states[..n + 1], events[..n]);
      RunKeeps(rule, states[..n + 1], events[..n]);
      ForetoldStep(rule, events[..n], states[n], events[n]);
      assert events[..n] + [events[n]] == events;
    }
  }

  /** The count a request finds is the number of arrivals into its window at the moment it reads. */
  lemma SeenExactly(rule: Rule, states: seq<State>, events: seq<Event>, e: nat, i: nat)
    requires rule.windowSeconds > 0 && Run(rule, states, events) && e < |events| && events[e] == Read(i)
    ensures i < |states[e].requests| && i < |states[|events|].requests|
    ensures var w := states[e].requests[i].window;
      states[|events|].requests[i] == Request(w, states[e].requests[i].now, Some(Arrivals(states[e].requests, w)))
  {
    RunForetold(rule, states, events);
    RunForetold(rule, states[..e + 1], events[..e]);
    assert ReadSaw(rule, events, states[|events|].requests, e);
    RequestsStay(rule, states, events, e, i);
    ArrivalsEntered(states[e].requests, Entered(rule, events[..e]), states[e].requests[i].window);
  }

  /** A request stays in its window. */
  lemma {:induction false} RequestsStay(rule: Rule, states: seq<State>, events: seq<Event>, e: nat, i: nat)
    requires Run(rule, states, events) && e <= |events| && i < |states[e].requests|
    ensures i < |states[|events|].requests|
    ensures states[|events|].requests[i].(seen := None) == states[e].requests[i].(seen := None)
    decreases |events|
  {
    if e < |events| {
      RequestsStay(rule, states[..|events|], events[..|events| - 1], e, i);
    }
  }

  /** A request is let in exactly when it reads its bucket before one more than `max` have entered its window. */
  lemma AdmittedExactly(rule: Rule, states: seq<State>, events: seq<Event>, i: nat)
    requires rule.windowSeconds > 0 && Run(rule, states, events) && i < |Entered(rule, events)|
    ensures i < |states[|events|].requests| && states[|events|].requests[i].window == Entered(rule, events)[i]
    ensures Admitted(rule, states[|events|].requests[i]) <==> ReadEarly(rule, events, i, Entered(rule, events)[i])
  {
    RunForetold(rule, states, events);
    var rs := states[|events|].requests;
    if rs[i].seen.Some? {
      var f :| 0 <= f < |events| && events[f] == Read(i);
      assert ReadSaw(rule, events, rs, f);
    }
    if ReadEarly(rule, events, i, Entered(rule, events)[i]) {
      var f :| 0 <= f < |events| && events[f] == Read(i) && Into(Entered(rule, events[..f]), rs[i].window) <= rule.max;
      assert ReadSaw(rule, events, rs, f);
    }
  }

  lemma ReadInTimeExactly(rule: Rule, states: seq<State>, events: seq<Event>, w: nat)
    requires rule.windowSeconds > 0 && Run(rule, states, events)
    ensures ReadInTime(rule, events, w) <==> FirstAdmitted(rule, states[|events|].requests, w)
  {
    RunForetold(rule, states, events);
    var rs, entered := states[|events|].requests, Entered(rule, events);
    forall i | 0 <= i < |rs| && rs[i].window == w
      ensures Place(rs, i) == Into(entered[..i + 1], w)
      ensures Admitted(rule, rs[i]) <==> ReadEarly(rule, events, i, w)
    {
      ArrivalsEntered(rs[..i + 1], entered[..i + 1], w);
      AdmittedExactly(rule, states, events, i);
    }
  }

  /**
   * Of the arrivals into a window at most `max` get in, and exactly as many as can precisely when each of
   * the first `max` reads its bucket before one more than `max` have arrived.
   */
  lemma WindowAdmits(rule: Rule, states: seq<State>, events: seq<Event>, w: nat)
    requires rule.windowSeconds > 0 && Run(rule, states, events)
    ensures var let, came := Admissions(rule, states[|events|].requests, w), Into(Entered(rule, events), w);
      let <= Min(came, rule.max) && (let == Min(came, rule.max) <==> ReadInTime(rule, events, w))
  {
    RunKeeps(rule, states, events);
    RunForetold(rule, states, events);
    KeptCounts(rule, states[|events|]);
    AdmissionsExactly(rule, states[|events|].requests, w);
    ArrivalsEntered(states[|events|].requests, Entered(rule, events), w);
    ReadInTimeExactly(rule, states, events, w);
  }

  lemma {:induction false} NoneAdmitted(rule: Rule, rs: seq<Request>, w: nat)
    requires forall i | 0 <= i < |rs| && rs[i].window == w :: !Admitted(rule, rs[i])
    ensures Admissions(rule, rs, w) == 0
    decreases |rs|
  {
    if rs != [] {
      NoneAdmitted(rule, rs[..|rs| - 1], w);
    }
  }

  /** `n` requests have arrived at one moment, and the first `k` of them have read their bucket since. */
  function Crowd(rule: Rule, now: int, n: nat, k: nat): State {
    State(if n == 0 then [] else [Window(n, now + rule.Length())],
          seq(n, i => Request(0, now, if i < k then Some(n) else None)))
  }

  /** They all arrive, and then they all read. */
  lemma CrowdRuns(rule: Rule, now: int, n: nat) returns (states: seq<State>, events: seq<Event>)
    requires rule.windowSeconds > 0
    ensures Run(rule, states, events) && states[|events|] == Crowd(rule, now, n, n)
  {
    events := seq(2 * n, i => if i < n then Arrive(now) else Read(i - n));
    states := seq(2 * n + 1, i requires 0 <= i =>
      if i <= n then Crowd(rule, now, i, 0) else Crowd(rule, now, n, i - n));
    forall i | 0 <= i < |events|
      ensures Enabled(states[i], events[i]) && states[i + 1] == Next(rule, states[i], events[i])
    {
      CrowdStep(rule, now, n, i, states[i], events[i], states[i + 1]);
    }
  }

  lemma CrowdStep(rule: Rule, now: int, n: nat, i: nat, s: State, e: Event, t: State)
    requires rule.windowSeconds > 0 && i < 2 * n
    requires if i < n then s == Crowd(rule, now, i, 0) && e == Arrive(now) && t == Crowd(rule, now, i + 1, 0)
             else s == Crowd(rule, now, n, i - n) && e == Read(i - n) && t == Crowd(rule, now, n, i - n + 1)
    ensures Enabled(s, e) && t == Next(rule, s, e)
  {
  }

  /** For every limit: one more than `max` arriving before any of them reads its bucket are all refused. */
  lemma TogetherAllRefused(rule: Rule, now: int) returns (states: seq<State>, events: seq<Event>)
    requires rule.windowSeconds > 0
    ensures Run(rule, states, events) && |Entered(rule, events)| == rule.max + 1
    ensures forall r <- states[|events|].requests :: r.seen.Some?
    ensures Into(Entered(rule, events), 0) == rule.max + 1 && Admissions(rule, states[|events|].requests, 0) == 0
  {
    states, events := CrowdRuns(rule, now, rule.max + 1);
    CrowdRefused(rule, now, rule.max + 1);
    RunForetold(rule, states, events);
    ArrivalsEntered(states[|events|].requests, Entered(rule, events), 0);
  }

  lemma CrowdRefused(rule: Rule, now: int, n: nat)
    requires n > rule.max
    ensures var rs := Crowd(rule, now, n, n).requests;
      && (forall r <- rs :: r.seen.Some?) && |rs| == n
      && Arrivals(rs, 0) == n && Admissions(rule, rs, 0) == 0
  {
    var rs := Crowd(rule, now, n, n).requests;
    NoneAdmitted(rule, rs, 0);
    ArrivalsAll(rs, 0);
  }

  lemma {:induction false} ArrivalsAll(rs: seq<Request>, w: nat)
    requires forall r <- rs :: r.window == w
    ensures Arrivals(rs, w) == |rs|
    decreases |rs|
  {
    if rs != [] {
      ArrivalsAll(rs[..|rs| - 1], w);
    }
  }

  // ---------- requests that run one at a time ----------

  ghost predicate OneAtATime(events: seq<Event>) {
    forall i | 0 <= i < |events| :: if i % 2 == 0 then events[i].Arrive? else events[i] == Read(i / 2)
  }

  ghost predicate ReadAtOnce(rs: seq<Request>) {
    forall i | 0 <= i < |rs| :: rs[i].seen == Some(Place(rs, i))
  }

  lemma StepAtOnce(rule: Rule, s: State, t: State, u: State, now: int)
    requires rule.windowSeconds > 0 && Kept(rule, s) && ReadAtOnce(s.requests)
    requires Enabled(s, Arrive(now)) && t == Next(rule, s, Arrive(now))
    requires Enabled(t, Read(|s.requests|)) && u == Next(rule, t, Read(|s.requests|))
    ensures ReadAtOnce(u.requests)
  {
    var n := |s.requests|;
    ArriveKeeps(rule, s, now);
    assert WindowKept(rule, t, t.requests[n].window);
    forall i | 0 <= i <= n ensures u.requests[i].seen == Some(Place(u.requests, i)) {
      PlaceUnread(t.requests, n, u.requests[n].seen, i);
      if i < n {
        assert t.requests[..n] == s.requests;
        PlaceOfPrefix(t.requests, n, i);
      } else {
        assert t.requests[..n + 1] == t.requests;
      }
    }
  }

  lemma {:induction false} RunAtOnce(rule: Rule, states: seq<State>, events: seq<Event>, n: nat)
    requires rule.windowSeconds > 0 && Run(rule, states, events) && OneAtATime(events) && |events| == 2 * n
    ensures ReadAtOnce(states[|events|].requests) && |states[|events|].requests| == n
    decreases n
  {
    if n > 0 {
      var m := 2 * n - 2;
      RunAtOnce(rule, states[..m + 1], events[..m], n - 1);
      RunKeeps(rule, states[..m + 1], events[..m]);
      assert events[m].Arrive? && events[m + 1] == Read((m + 1) / 2);
      StepAtOnce(rule, states[m], states[m + 1], states[m + 2], events[m].now);
    }
  }

  /** One at a time, every window lets in as many of its requests as the limit allows. */
  lemma OneAtATimeExact(rule: Rule, states: seq<State>, events: seq<Event>, n: nat, w: nat)
    requires rule.windowSeconds > 0 && Run(rule, states, events) && OneAtATime(events) && |events| == 2 * n
    ensures var rs := states[|events|].requests; Admissions(rule, rs, w) == Min(Arrivals(rs, w), rule.max)
  {
    RunAtOnce(rule, states, events, n);
    AdmissionsExactly(rule, states[|events|].requests, w);
  }

  // ---------- any interval one window long ----------

  predicate InSpan(rule: Rule, from: int, r: Request) { from <= r.now < from + rule.Length() }

  function SpanAdmissions(rule: Rule, rs: seq<Request>, from: int): nat {
    if rs == [] then 0
    else
      var r := rs[|rs| - 1];
      SpanAdmissions(rule, rs[..|rs| - 1], from) + One(InSpan(rule, from, r) && Admitted(rule, r))
  }

  lemma {:induction false} SpanOfTwo(rule: Rule, rs: seq<Request>, from: int, w: nat)
    requires forall i | 0 <= i < |rs| && InSpan(rule, from, rs[i]) :: rs[i].window == w || rs[i].window == w + 1
    ensures SpanAdmissions(rule, rs, from) <= Admissions(rule, rs, w) + Admissions(rule, rs, w + 1)
    decreases |rs|
  {
    if rs != [] {
      SpanOfTwo(rule, rs[..|rs| - 1], from, w);
    }
  }

  /** Requests less than a window's length apart are in one window or in two neighbours. */
  ghost predicate Neighbours(rule: Rule, rs: seq<Request>) {
    forall i, j | 0 <= i < |rs| && 0 <= j < |rs| && rs[j].now < rs[i].now + rule.Length() ::
      rs[j].window <= rs[i].window + 1
  }

  lemma FirstWindow(rule: Rule, rs: seq<Request>, from: int) returns (w: nat)
    requires Neighbours(rule, rs)
    ensures forall i | 0 <= i < |rs| && InSpan(rule, from, rs[i]) :: rs[i].window == w || rs[i].window == w + 1
  {
    w := 0;
    if i :| 0 <= i < |rs| && InSpan(rule, from, rs[i]) {
      w := rs[i].window;
      if j :| 0 <= j < |rs| && InSpan(rule, from, rs[j]) && rs[j].window < w {
        w := rs[j].window;
      }
    }
  }

  lemma SpanBound(rule: Rule, rs: seq<Request>, from: int)
    requires CountsSelf(rs) && Neighbours(rule, rs)
    ensures SpanAdmissions(rule, rs, from) <= 2 * rule.max
  {
    var w := FirstWindow(rule, rs, from);
    SpanOfTwo(rule, rs, from, w);
    AdmissionsExactly(rule, rs, w);
    AdmissionsExactly(rule, rs, w + 1);
  }

  lemma FarApart(rule: Rule, windows: seq<Window>, v: nat, w: nat)
    requires Apart(rule, windows) && v < |windows| && w < |windows|
    ensures v + 1 < w ==> windows[v].resetAt + 2 * rule.Length() <= windows[w].resetAt
  {
    if v + 1 < w {
      assert windows[v].resetAt + rule.Length() <= windows[v + 1].resetAt;
      assert windows[v + 1].resetAt + rule.Length() <= windows[w].resetAt;
    }
  }

  lemma KeptNeighbours(rule: Rule, s: State)
    requires Kept(rule, s)
    ensures Neighbours(rule, s.requests)
  {
    var rs := s.requests;
    forall i, j | 0 <= i < |rs| && 0 <= j < |rs| && rs[j].now < rs[i].now + rule.Length()
      ensures rs[j].window <= rs[i].window + 1
    {
      assert RequestKept(rule, s, i) && RequestKept(rule, s, j);
      FarApart(rule, s.windows, rs[i].window, rs[j].window);
    }
  }

  /** However requests interleave, no half-open interval of one window's length lets in more than twice the limit. */
  lemma AtMostTwice(rule: Rule, states: seq<State>, events: seq<Event>, from: int)
    requires rule.windowSeconds > 0 && Run(rule, states, events)
    ensures SpanAdmissions(rule, states[|events|].requests, from) <= 2 * rule.max
  {
    RunKeeps(rule, states, events);
    KeptCounts(rule, states[|events|]);
    KeptNeighbours(rule, states[|events|]);
    SpanBound(rule, states[|events|].requests, from);
  }

  // ---------- being told to wait ----------

  /**
   * Every refusal asks for the seconds left of the window, rounded up, so for at least one; `asked` is the
   * clock when the request came in.
   */
  lemma RefusalWaits(rule: Rule, states: seq<State>, events: seq<Event>, i: nat, asked: int)
    requires rule.windowSeconds > 0 && Run(rule, states, events) && i < |states[|events|].requests|
    requires asked <= states[|events|].requests[i].now
    ensures states[|events|].requests[i].window < |states[|events|].windows|
    ensures var s := states[|events|];
      var verdict := Judge(s.windows[s.requests[i].window], rule.max, asked);
      if verdict.ok then verdict.retryAfterSeconds == 0
      else
        var left := s.windows[s.requests[i].window].resetAt - asked;
        && verdict.retryAfterSeconds >= 1
        && 1000 * verdict.retryAfterSeconds - 1000 < left <= 1000 * verdict.retryAfterSeconds
  {
    RunKeeps(rule, states, events);
    assert RequestKept(rule, states[|events|], i);
  }

  /** Back after the wait, with no request in between to open a window, a request opens one and gets in. */
  lemma WaitPays(rule: Rule, s: State, i: nat, asked: int, now: int)
    requires rule.max >= 1 && i < |s.requests| && s.windows != [] && s.requests[i].window == |s.windows| - 1
    requires var verdict := Judge(s.windows[s.requests[i].window], rule.max, asked);
      !verdict.ok && asked + 1000 * verdict.retryAfterSeconds <= now
    requires Enabled(s, Arrive(now))
    ensures var t := Next(rule, s, Arrive(now));
      && Enabled(t, Read(|s.requests|))
      && Admitted(rule, Next(rule, t, Read(|s.requests|)).requests[|s.requests|])
  {
  }

  // ---------- the shared store, where every count is its own ----------

  /** The aligned window a time falls in: `Math.floor(now / length)`. */
  function Slot(now: nat, length: nat): nat
    requires length > 0
  {
    if now < length then 0 else 1 + Slot(now - length, length)
  }

  /** The start of the next aligned window. */
  function SlotEnd(now: nat, length: nat): nat
    requires length > 0
  {
    (Slot(now, length) + 1) * length
  }

  lemma OneMore(k: nat, length: nat)
    ensures (k + 1) * length == k * length + length
  {
  }

  /** Slot is the floor of the quotient. */
  lemma {:induction false} SlotIsFloor(now: nat, length: nat)
    requires length > 0
    ensures Slot(now, length) * length <= now < SlotEnd(now, length)
    decreases now
  {
    OneMore(Slot(now, length), length);
    if now >= length {
      SlotIsFloor(now - length, length);
      OneMore(Slot(now - length, length), length);
    }
  }

  lemma {:induction false} SlotOfStart(k: nat, length: nat)
    requires length > 0
    ensures Slot(k * length, length) == k
    decreases k
  {
    if k > 0 {
      OneMore(k - 1, length);
      SlotOfStart(k - 1, length);
    }
  }

  lemma {:induction false} NextDoor(a: nat, b: nat, length: nat)
    requires length > 0 && b < a + length
    ensures Slot(b, length) <= Slot(a, length) + 1
    decreases a
  {
    if a >= length && b >= length {
      NextDoor(a - length, b - length, length);
    }
  }

  /** What Redis counts: each request gets its own number in its aligned window. */
  function Aligned(length: nat, times: seq<nat>): (rs: seq<Request>)
    requires length > 0
    ensures |rs| == |times|
  {
    if times == [] then [] else
      var pre := Aligned(length, times[..|times| - 1]);
      var now := times[|times| - 1];
      pre + [Request(Slot(now, length), now, Some(Arrivals(pre, Slot(now, length)) + 1))]
  }

  lemma {:induction false} AlignedAt(length: nat, times: seq<nat>, i: nat)
    requires length > 0 && i < |times|
    ensures var rs := Aligned(length, times);
      rs[i] == Request(Slot(times[i], length), times[i], Some(Place(rs, i)))
    decreases |times|
  {
    var n := |times| - 1;
    var rs := Aligned(length, times);
    assert rs[..n] == Aligned(length, times[..n]);
    if i < n {
      AlignedAt(length, times[..n], i);
      PlaceOfPrefix(rs, n, i);
    } else {
      assert rs[..n + 1] == rs;
    }
  }

  /**
   * On the shared store every window is exact, in whatever order requests reach it, the bound on an
   * interval holds, and a refusal asks for at least a second.
   */
  lemma SharedStoreExact(rule: Rule, times: seq<nat>, w: nat, from: int)
    requires rule.windowSeconds > 0
    ensures var rs := Aligned(rule.Length(), times);
      && Admissions(rule, rs, w) == Min(Arrivals(rs, w), rule.max)
      && SpanAdmissions(rule, rs, from) <= 2 * rule.max
  {
    var rs := Aligned(rule.Length(), times);
    forall i | 0 <= i < |rs| ensures rs[i] == Request(Slot(times[i], rule.Length()), times[i], Some(Place(rs, i))) {
      AlignedAt(rule.Length(), times, i);
    }
    AdmissionsExactly(rule, rs, w);
    forall i, j | 0 <= i < |rs| && 0 <= j < |rs| && rs[j].now < rs[i].now + rule.Length()
      ensures rs[j].window <= rs[i].window + 1
    {
      NextDoor(times[i], times[j], rule.Length());
    }
    SpanBound(rule, rs, from);
  }

  /** A refusal by the shared store asks for at least a second, and ends where the next window starts. */
  lemma SharedRefusalWaits(now: nat, length: nat, asked: int)
    requires length > 0 && asked <= now
    ensures var wait, left := CeilSeconds(SlotEnd(now, length) - asked), SlotEnd(now, length) - asked;
      wait >= 1 && 1000 * wait - 1000 < left <= 1000 * wait
    ensures Slot(SlotEnd(now, length), length) == Slot(now, length) + 1
  {
    SlotIsFloor(now, length);
    SlotOfStart(Slot(now, length) + 1, length);
  }
}
