/** `publint-all`: a fixed number of async workers share one cursor into the target list. A worker
    runs undisturbed from one `await` to the next, so a run of the pool is any interleaving of these
    stretches. */
module WorkerPool {
  import opened Basics

  // ----- publintConcurrency -----

  const MAX_SAFE_INTEGER := 9007199254740991

  /** What a decimal numeral stands for. */
  function Value(digits: string): nat {
    if digits == "" then 0
    else
      var last := digits[|digits| - 1];
      10 * Value(digits[..|digits| - 1]) + if '0' <= last <= '9' then last as int - '0' as int else 0
  }

  /** The strings that print the way they parse: a positive safe integer in plain decimal. */
  predicate PositiveInteger(raw: string) {
    && raw != "" && raw[0] != '0'
    && (forall c :: c in raw ==> '0' <= c <= '9')
    && Value(raw) <= MAX_SAFE_INTEGER
  }

  /** The number of workers; None is the configuration error. */
  function Concurrency(total: nat, raw: Option<string>, parallelism: nat): Option<nat> {
    if total == 0 then Some(0)
    else if raw.Some? && raw.value != "" then
      if PositiveInteger(raw.value) then Some(if total <= Value(raw.value) then total else Value(raw.value)) else None
    else Some(if total <= parallelism then total else parallelism)
  }

  lemma {:induction false} PositiveValue(raw: string)
    requires raw != "" && raw[0] != '0' && forall c :: c in raw ==> '0' <= c <= '9'
    ensures Value(raw) >= 1
  {
    var n := |raw| - 1;
    if n == 0 {
      assert raw[0] in raw;
      assert raw[..0] == "";
    } else {
      forall c | c in raw[..n] ensures '0' <= c <= '9' { assert c in raw; }
      PositiveValue(raw[..n]);
    }
  }

  /** Whenever there is work there is a worker, and never more workers than targets. */
  lemma ConcurrencyBounds(total: nat, raw: Option<string>, parallelism: nat)
    requires parallelism >= 1
    ensures var c := Concurrency(total, raw, parallelism);
            c.Some? ==> c.value <= total && (total > 0 ==> c.value >= 1)
  {
    if raw.Some? && PositiveInteger(raw.value) { PositiveValue(raw.value); }
  }

  /** The decimal numeral of n, without leading zeros. */
  function Numeral(n: nat): (s: string)
    ensures s != "" && (n > 0 ==> s[0] != '0') && forall c :: c in s ==> '0' <= c <= '9'
  {
    var digit := ('0' as int + n % 10) as char;
    if n < 10 then [digit] else Numeral(n / 10) + [digit]
  }

  lemma {:induction false} NumeralValue(n: nat)
    ensures Value(Numeral(n)) == n
  {
    var s := Numeral(n);
    var last := |s| - 1;
    if n < 10 {
      assert s[..0] == "" && Value(s[..0]) == 0;
    } else {
      NumeralValue(n / 10);
      assert s[..last] == Numeral(n / 10);
    }
  }

  lemma {:induction false} ValueNumeral(raw: string)
    requires raw != "" && raw[0] != '0' && forall c :: c in raw ==> '0' <= c <= '9'
    ensures Numeral(Value(raw)) == raw
  {
    hide Numeral, Value;
    var n := |raw| - 1;
    ValueParts(raw);
    assert raw == raw[..n] + [raw[n]] && raw[n] in raw;
    if n == 0 {
      assert raw[..0] == "" && raw == [raw[0]];
      ValueParts("");
      NumeralDigit(Value(raw));
    } else {
      forall c | c in raw[..n] ensures '0' <= c <= '9' { assert c in raw; }
      ValueNumeral(raw[..n]);
      PositiveValue(raw[..n]);
      NumeralDigit(Value(raw));
    }
  }

  lemma ValueParts(raw: string)
    ensures Value("") == 0
    ensures raw != "" && '0' <= raw[|raw| - 1] <= '9' ==>
              var n, d := |raw| - 1, raw[|raw| - 1] as int - '0' as int;
              Value(raw) == 10 * Value(raw[..n]) + d && Value(raw) / 10 == Value(raw[..n]) && Value(raw) % 10 == d
  {
  }

  lemma NumeralDigit(n: nat)
    ensures var digit := ('0' as int + n % 10) as char;
            Numeral(n) == if n < 10 then [digit] else Numeral(n / 10) + [digit]
  {
  }

  /** The setting is accepted exactly if it is the plain numeral of a positive safe integer, and then it
      bounds the number of workers together with the number of targets. Without a setting the available
      parallelism does. */
  lemma ConcurrencyExact(total: nat, raw: Option<string>, parallelism: nat, workers: nat)
    ensures Concurrency(total, raw, parallelism) == Some(workers) <==>
            if total == 0 then workers == 0
            else if raw.None? || raw.value == "" then workers == Min(total, parallelism)
            else exists n: nat :: 1 <= n <= MAX_SAFE_INTEGER && raw.value == Numeral(n) && workers == Min(total, n)
  {
    if total > 0 && raw.Some? && raw.value != "" {
      var s := raw.value;
      if PositiveInteger(s) {
        ValueNumeral(s);
        PositiveValue(s);
        assert s == Numeral(Value(s));
      }
      forall n: nat | s == Numeral(n) ensures Value(s) == n { NumeralValue(n); }
    }
  }

  // ----- the pool as a transition system -----

  /** Before its first claim, waiting for the result of a target, or finished. */
  datatype Worker = Fresh | Running(index: nat) | Stopped

  /** `claims` lists the indices the workers took, in the order they took them. */
  datatype Pool<R> = Pool(next: nat, workers: seq<Worker>, results: map<nat, R>, claims: seq<nat>)

  function Start<R>(concurrency: nat): Pool<R> {
    Pool(0, seq(concurrency, _ => Fresh), map[], [])
  }

  /** Worker k runs from its current `await` to the next one: it stores the result it waited for,
      then takes the next index or stops. */
  function Resume<R>(p: Pool<R>, k: nat, total: nat, outcome: nat -> R): Pool<R>
    requires k < |p.workers|
  {
    if p.workers[k].Stopped? then p
    else
      var results := if p.workers[k].Running? then p.results[p.workers[k].index := outcome(p.workers[k].index)]
                     else p.results;
      if p.next < total then Pool(p.next + 1, p.workers[k := Running(p.next)], results, p.claims + [p.next])
      else Pool(p.next + 1, p.workers[k := Stopped], results, p.claims)
  }

  /** A schedule names the worker that resumes next; names of no worker are idle moments. */
  function Run<R>(p: Pool<R>, schedule: seq<nat>, total: nat, outcome: nat -> R): Pool<R>
    decreases |schedule|
  {
    if schedule == [] then p
    else
      var next := if schedule[0] < |p.workers| then Resume(p, schedule[0], total, outcome) else p;
      Run(next, schedule[1..], total, outcome)
  }

  predicate AllStopped<R>(p: Pool<R>) {
    forall k :: 0 <= k < |p.workers| ==> p.workers[k].Stopped?
  }

  function Upto(n: nat): (s: seq<nat>)
    ensures |s| == n && forall i :: 0 <= i < n ==> s[i] == i
  {
    seq(n, i => i)
  }

  function Claimed<R>(p: Pool<R>, total: nat): nat {
    if p.next < total then p.next else total
  }

  /** What every interleaving keeps: the claims are the indices in order, each claimed index is either
      awaited by exactly one worker or has its own target's result. */
  ghost predicate Inv<R>(p: Pool<R>, total: nat, outcome: nat -> R) {
    && p.claims == Upto(Claimed(p, total))
    && (forall k :: 0 <= k < |p.workers| && p.workers[k].Running? ==>
       p.workers[k].index < Claimed(p, total) && p.workers[k].index !in p.results)
    && (forall j, k :: 0 <= j < k < |p.workers| && p.workers[j].Running? ==> p.workers[j] != p.workers[k])
    && (forall i :: i in p.results ==> i < Claimed(p, total) && p.results[i] == outcome(i))
    && (forall i :: 0 <= i < Claimed(p, total) ==>
       i in p.results || exists k :: 0 <= k < |p.workers| && p.workers[k] == Running(i))
    && (forall k :: 0 <= k < |p.workers| && p.workers[k].Stopped? ==> p.next > total)
  }

  lemma ResumeInv<R>(p: Pool<R>, k: nat, total: nat, outcome: nat -> R)
    requires k < |p.workers| && Inv(p, total, outcome)
    ensures Inv(Resume(p, k, total, outcome), total, outcome)
  {
    ResumeCovers(p, k, total, outcome);
    ResumeClaims(p, k, total, outcome);
  }

  lemma ResumeClaims<R>(p: Pool<R>, k: nat, total: nat, outcome: nat -> R)
    requires k < |p.workers| && Inv(p, total, outcome)
    ensures var q := Resume(p, k, total, outcome); q.claims == Upto(Claimed(q, total))
  {
  }

  lemma ResumeCovers<R>(p: Pool<R>, k: nat, total: nat, outcome: nat -> R)
    requires k < |p.workers| && Inv(p, total, outcome)
    ensures var q := Resume(p, k, total, outcome);
            forall i :: 0 <= i < Claimed(q, total) ==>
              i in q.results || exists j :: 0 <= j < |q.workers| && q.workers[j] == Running(i)
  {
    var q := Resume(p, k, total, outcome);
    hide Upto;
    if !p.workers[k].Stopped? {
      forall i | 0 <= i < Claimed(q, total)
        ensures i in q.results || exists j :: 0 <= j < |q.workers| && q.workers[j] == Running(i)
      {
        if i == p.next {
          assert q.workers[k] == Running(i);
        } else if i !in p.results {
          var j :| 0 <= j < |p.workers| && p.workers[j] == Running(i);
          if j != k { assert q.workers[j] == Running(i); }
        }
      }
    }
  }

  lemma {:induction false} RunInv<R>(p: Pool<R>, schedule: seq<nat>, total: nat, outcome: nat -> R)
    requires Inv(p, total, outcome)
    ensures var q := Run(p, schedule, total, outcome); Inv(q, total, outcome) && |q.workers| == |p.workers|
    decreases |schedule|
  {
    if schedule != [] {
      if schedule[0] < |p.workers| {
        ResumeInv(p, schedule[0], total, outcome);
        RunInv(Resume(p, schedule[0], total, outcome), schedule[1..], total, outcome);
      } else {
        RunInv(p, schedule[1..], total, outcome);
      }
    }
  }

  /** The list `runAll` returns; None where a result slot would be missing. */
  function Collected<R>(p: Pool<R>, total: nat): Option<seq<R>> {
    if forall i :: 0 <= i < total ==> i in p.results
    then Some(seq(total, i requires 0 <= i < total && i in p.results => p.results[i])) else None
  }

  /** Nobody stops before every index is claimed. */
  lemma StoppedClaimedAll<R>(p: Pool<R>, total: nat, outcome: nat -> R)
    requires Inv(p, total, outcome) && AllStopped(p) && (total > 0 ==> |p.workers| > 0)
    ensures Claimed(p, total) == total
    ensures forall i :: 0 <= i < total ==> i in p.results && p.results[i] == outcome(i)
  {
    if total > 0 { assert p.workers[0].Stopped?; }
    assert Claimed(p, total) == total;
  }

  /** However the workers interleave: every index is claimed exactly once and in order, and once all
      workers have stopped, every slot holds its own target's result. The missing-result error is
      unreachable as long as there is a worker. */
  lemma PoolCompletes<R>(concurrency: nat, total: nat, schedule: seq<nat>, outcome: nat -> R)
    requires total > 0 ==> concurrency > 0
    ensures var p := Run(Start(concurrency), schedule, total, outcome);
            && p.claims == Upto(Claimed(p, total))
            && (AllStopped(p) ==>
                  && p.claims == Upto(total)
                  && Collected(p, total).Some? && |Collected(p, total).value| == total
                  && forall i :: 0 <= i < total ==> Collected(p, total).value[i] == outcome(i))
  {
    var p := Run(Start(concurrency), schedule, total, outcome);
    RunInv(Start(concurrency), schedule, total, outcome);
    if AllStopped(p) { StoppedClaimedAll(p, total, outcome); }
  }

  // ----- progress -----

  function Live(ws: seq<Worker>): nat {
    if ws == [] then 0 else (if ws[|ws| - 1].Stopped? then 0 else 1) + Live(ws[..|ws| - 1])
  }

  lemma {:induction false} LiveDrops(ws: seq<Worker>, k: nat, w: Worker)
    requires k < |ws| && !ws[k].Stopped?
    ensures Live(ws[k := w]) == if w.Stopped? then Live(ws) - 1 else Live(ws)
    ensures Live(ws) >= 1
    decreases |ws|
  {
    var n := |ws| - 1;
    if k == n {
      assert ws[k := w][..n] == ws[..n];
    } else {
      assert ws[k := w][..n] == ws[..n][k := w];
      LiveDrops(ws[..n], k, w);
    }
  }

  /** Resumptions of workers that have not stopped, until all have. */
  function Work<R>(p: Pool<R>, total: nat): nat {
    total - Claimed(p, total) + Live(p.workers)
  }

  /** Each resumption of a worker that has not stopped uses up one unit of work: whatever the
      interleaving, the pool makes exactly one resumption for each target and one for each worker. */
  lemma ResumeWorks<R>(p: Pool<R>, k: nat, total: nat, outcome: nat -> R)
    requires k < |p.workers| && !p.workers[k].Stopped?
    ensures Work(Resume(p, k, total, outcome), total) == Work(p, total) - 1
  {
    LiveDrops(p.workers, k, if p.next < total then Running(p.next) else Stopped);
  }

  lemma {:induction false} StartLive(n: nat)
    ensures Live(seq(n, _ => Fresh)) == n
  {
    if n > 0 {
      assert seq(n, _ => Fresh)[..n - 1] == seq(n - 1, _ => Fresh);
      StartLive(n - 1);
    }
  }

  lemma {:induction false} NoLiveAllStopped(ws: seq<Worker>)
    ensures Live(ws) == 0 <==> forall k :: 0 <= k < |ws| ==> ws[k].Stopped?
  {
    if ws != [] {
      var n := |ws| - 1;
      NoLiveAllStopped(ws[..n]);
      if forall k :: 0 <= k < |ws[..n]| ==> ws[..n][k].Stopped? {
        forall k | 0 <= k < n ensures ws[k].Stopped? { assert ws[..n][k].Stopped?; }
      }
    }
  }

  /** A schedule in which every moment resumes a worker that has not stopped. */
  ghost predicate Effective<R>(p: Pool<R>, schedule: seq<nat>, total: nat, outcome: nat -> R)
    decreases |schedule|
  {
    schedule == [] ||
    (schedule[0] < |p.workers| && !p.workers[schedule[0]].Stopped?
     && Effective(Resume(p, schedule[0], total, outcome), schedule[1..], total, outcome))
  }

  lemma {:induction false} EffectiveWorks<R>(p: Pool<R>, schedule: seq<nat>, total: nat, outcome: nat -> R)
    requires Effective(p, schedule, total, outcome)
    ensures Work(Run(p, schedule, total, outcome), total) == Work(p, total) - |schedule|
    decreases |schedule|
  {
    if schedule != [] {
      ResumeWorks(p, schedule[0], total, outcome);
      EffectiveWorks(Resume(p, schedule[0], total, outcome), schedule[1..], total, outcome);
    }
  }

  /** The pool has stopped exactly when no work is left. */
  lemma StoppedIffNoWork<R>(p: Pool<R>, total: nat, outcome: nat -> R)
    requires Inv(p, total, outcome) && (total > 0 ==> |p.workers| > 0)
    ensures AllStopped(p) <==> Work(p, total) == 0
  {
    NoLiveAllStopped(p.workers);
    if AllStopped(p) { StoppedClaimedAll(p, total, outcome); }
  }

  lemma FinishesFrom<R>(p: Pool<R>, schedule: seq<nat>, total: nat, outcome: nat -> R)
    requires Inv(p, total, outcome) && (total > 0 ==> |p.workers| > 0) && Effective(p, schedule, total, outcome)
    ensures |schedule| <= Work(p, total)
    ensures AllStopped(Run(p, schedule, total, outcome)) <==> |schedule| == Work(p, total)
  {
    hide Effective, Run, Inv, AllStopped;
    EffectiveWorks(p, schedule, total, outcome);
    RunInv(p, schedule, total, outcome);
    StoppedIffNoWork(Run(p, schedule, total, outcome), total, outcome);
  }

  /** Without idle moments the pool has finished after exactly total + concurrency resumptions, no
      sooner and no later, in every interleaving. */
  lemma PoolFinishes<R>(concurrency: nat, total: nat, schedule: seq<nat>, outcome: nat -> R)
    requires (total > 0 ==> concurrency > 0) && Effective(Start(concurrency), schedule, total, outcome)
    ensures |schedule| <= total + concurrency
    ensures AllStopped(Run(Start(concurrency), schedule, total, outcome)) <==> |schedule| == total + concurrency
  {
    hide Effective, Run, AllStopped;
    StartLive(concurrency);
    FinishesFrom(Start(concurrency), schedule, total, outcome);
  }

  // ----- the worker's loop body -----

  /** The variables the workers share, and where each worker stands. */
  class Workers<R(0)> {
    const total: nat
    var next: nat
    var results: map<nat, R>
    var workers: seq<Worker>
    ghost var claims: seq<nat>

    ghost function View(): Pool<R> reads this { Pool(next, workers, results, claims) }

    constructor (total: nat, concurrency: nat)
      ensures this.total == total && View() == Start(concurrency)
    {
      this.total := total;
      next := 0;
      results := map[];
      workers := seq(concurrency, _ => Fresh);
      claims := [];
    }

    /** One uninterrupted stretch of worker k; `publint` answers for the target it awaited. */
    method Step(k: nat, publint: nat -> R)
      requires k < |workers|
      modifies this
      ensures View() == Resume(old(View()), k, total, publint)
    {
      if workers[k].Stopped? { return; }
      if workers[k].Running? {
        var index := workers[k].index;
        results := results[index := publint(index)];
      }
      var index := next;
      next := next + 1;
      if index < total {
        workers := workers[k := Running(index)];
        claims := claims + [index];
      } else {
        workers := workers[k := Stopped];
      }
    }

    /** A whole run under a schedule, and the results in input order; None is the missing-result
        error, which no run ends in. */
    method RunAll(schedule: seq<nat>, publint: nat -> R) returns (collected: Option<seq<R>>)
      requires View() == Start(|workers|) && (total > 0 ==> |workers| > 0)
      modifies this
      ensures View() == Run(old(View()), schedule, total, publint)
      ensures AllStopped(View()) ==>
                && collected.Some? && |collected.value| == total
                && forall i :: 0 <= i < total ==> collected.value[i] == publint(i)
    {
      ghost var start := View();
      var n := |workers|;
      var i := 0;
      while i < |schedule|
        invariant 0 <= i <= |schedule| && |workers| == n
        invariant Run(View(), schedule[i..], total, publint) == Run(start, schedule, total, publint)
      {
        if schedule[i] < |workers| { Step(schedule[i], publint); }
        assert schedule[i..][1..] == schedule[i + 1..];
        i := i + 1;
      }
      PoolCompletes(n, total, schedule, publint);
      collected := Collected(Pool(next, workers, results, []), total);
    }
  }
}
