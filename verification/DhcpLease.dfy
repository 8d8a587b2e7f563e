/** Keeping a DHCP lease: lease.go. Times are nanoseconds on the client's clock. */
module DhcpLease {
  import opened Wrappers
  import opened Bytes
  import opened DhcpOptions

  // ---- commit ----

  datatype Times = Times(renewal: int, rebinding: int, expire: int)

  /** Integer division of Go, truncating toward zero, by a positive number. */
  function Truncated(x: int, d: int): int
    requires d > 0
  {
    if x >= 0 then x / d else -(-x / d)
  }

  /** The rebinding time the code falls back to: 85 per cent of the lease time, in 64-bit arithmetic. */
  function DefaultRebinding(lease: int): int {
    Truncated(Wrap64(lease * 85), 100)
  }

  function RebindingTime(lease: int, sent: Option<int>): int {
    if sent.None? || sent.value > lease then DefaultRebinding(lease) else sent.value
  }

  function RenewalTime(lease: int, rebinding: int, sent: Option<int>): int {
    if sent.None? || sent.value > rebinding then Truncated(lease, 2) else sent.value
  }

  /** The times a reply sets at a given moment; None if it names no lease time. */
  function Committed(opts: Options, now: int): Option<Times> {
    match ParseDuration(opts, OPTION_LEASE_TIME)
    case None => None
    case Some(lease) =>
      var rebinding := RebindingTime(lease, ParseDuration(opts, OPTION_REBINDING_TIME));
      var renewal := RenewalTime(lease, rebinding, ParseDuration(opts, OPTION_RENEWAL_TIME));
      Some(Times(now + renewal, now + rebinding, now + lease))
  }

  const MAX_EXACT_LEASE := 108510259

  /** The multiplication in the default stays within 64 bits exactly up to this lease time. */
  lemma DefaultRebindingExactly(secs: nat)
    requires secs < 0x1_0000_0000
    ensures DefaultRebinding(secs * SECOND) == secs * SECOND * 85 / 100 <==> secs <= MAX_EXACT_LEASE
    ensures DefaultRebinding(secs * SECOND) <= secs * SECOND
  {
  }

  /** The server's rebinding time, if it is usable. */
  predicate UsableRebinding(lease: int, sent: Option<int>) {
    sent.Some? && sent.value <= lease
  }

  /**
   * The committed times: neither renewal nor rebinding lies after the expiry. When 85 per cent of
   * the lease time is computed exactly or not needed, renewal comes no later than rebinding, except
   * exactly when the server's rebinding time is below half the lease time and its renewal time is
   * missing or later still.
   */
  lemma CommittedTimes(opts: Options, now: int)
    requires Committed(opts, now).Some?
    ensures var t := Committed(opts, now).value;
      var secs := Value(opts[OPTION_LEASE_TIME]);
      var t1, t2 := ParseDuration(opts, OPTION_RENEWAL_TIME), ParseDuration(opts, OPTION_REBINDING_TIME);
      var lease := secs * SECOND;
      && t.expire == now + lease
      && t.renewal <= t.expire && t.rebinding <= t.expire
      && now <= t.renewal
      && (UsableRebinding(lease, t2) ==> t.rebinding == now + t2.value)
      && t.renewal == now + (if t1.Some? && now + t1.value <= t.rebinding then t1.value else lease / 2)
      && (!UsableRebinding(lease, t2) && secs <= MAX_EXACT_LEASE ==> t.rebinding == now + lease * 85 / 100)
      && (secs <= MAX_EXACT_LEASE || UsableRebinding(lease, t2) ==>
            (t.renewal > t.rebinding <==>
              UsableRebinding(lease, t2) && t2.value < lease / 2 && (t1.None? || t1.value > t2.value)))
  {
    hide Value;
    hide Wrap64;
    DurationExact(opts, OPTION_LEASE_TIME);
    var secs := Value(opts[OPTION_LEASE_TIME]);
    DefaultRebindingExactly(secs);
    if OPTION_REBINDING_TIME in opts && |opts[OPTION_REBINDING_TIME]| == 4 {
      DurationExact(opts, OPTION_REBINDING_TIME);
    }
    if OPTION_RENEWAL_TIME in opts && |opts[OPTION_RENEWAL_TIME]| == 4 {
      DurationExact(opts, OPTION_RENEWAL_TIME);
    }
  }

  /**
   * Past the bound: a lease of 120000000 s gets a rebinding time before its start, instead of one
   * after 102000000 s.
   */
  lemma LongLeaseRebindsEarly(now: int)
    ensures DefaultRebinding(120_000_000 * SECOND) == -82_467_440_737_095_516
    ensures 120_000_000 * SECOND * 85 / 100 == 102_000_000 * SECOND
  {
  }

  // ---- backoffRetry ----

  const RESEND_DELAY0 := 4 * SECOND
  const RESEND_DELAY_MAX := 62 * SECOND

  /** A random value from one second before to just under one second after. */
  type Jitter = j: int | -1_000_000_000 <= j < 1_000_000_000

  /**
   * One call of the retried function: how long it took, the acknowledgement if there was one, and
   * the jitter drawn after a failure.
   */
  datatype Try = Try(took: nat, reply: Option<Options>, jitter: Jitter)

  /** The time spent and the reply, from the i-th try on with the given delay. */
  function Backoff(tries: nat -> Try, i: nat, baseDelay: int): (int, Option<Options>)
    requires baseDelay > 0
    decreases 2 * RESEND_DELAY_MAX - baseDelay
  {
    var t := tries(i);
    if t.reply.Some? then (t.took, t.reply)
    else
      var spent := t.took + baseDelay + t.jitter;
      if baseDelay < RESEND_DELAY_MAX then
        var (more, reply) := Backoff(tries, i + 1, baseDelay * 2);
        (spent + more, reply)
      else (spent, None)
  }

  method BackoffRetry(tries: nat -> Try) returns (elapsed: int, reply: Option<Options>)
    ensures (elapsed, reply) == Backoff(tries, 0, RESEND_DELAY0)
  {
    var baseDelay := RESEND_DELAY0;
    var i := 0;
    elapsed := 0;
    ghost var all := Backoff(tries, 0, RESEND_DELAY0);
    while true
      invariant baseDelay > 0
      invariant all == (elapsed + Backoff(tries, i, baseDelay).0, Backoff(tries, i, baseDelay).1)
      decreases 2 * RESEND_DELAY_MAX - baseDelay
    {
      var t := tries(i);
      elapsed := elapsed + t.took;
      if t.reply.Some? {
        return elapsed, t.reply;
      }
      var sleepTime := baseDelay + t.jitter;
      elapsed := elapsed + sleepTime;
      if baseDelay < RESEND_DELAY_MAX {
        baseDelay := baseDelay * 2;
      } else {
        return elapsed, None;
      }
      i := i + 1;
    }
  }

  /** Giving up takes five tries and between 119 and 129 seconds on top of the tries themselves. */
  lemma BackoffFailure(tries: nat -> Try)
    requires Backoff(tries, 0, RESEND_DELAY0).1.None?
    ensures forall i :: 0 <= i < 5 ==> tries(i).reply.None?
    ensures var took := tries(0).took + tries(1).took + tries(2).took + tries(3).took + tries(4).took;
      119 * SECOND <= Backoff(tries, 0, RESEND_DELAY0).0 - took < 129 * SECOND
  {
    var b1 := Backoff(tries, 1, 8 * SECOND);
    var b2 := Backoff(tries, 2, 16 * SECOND);
    var b3 := Backoff(tries, 3, 32 * SECOND);
    var b4 := Backoff(tries, 4, 64 * SECOND);
  }

  /** The reply is that of the first try that has one, the tries before it having been waited for. */
  lemma BackoffAnswers(tries: nat -> Try, k: nat)
    requires k < 5 && tries(k).reply.Some? && forall i :: 0 <= i < k ==> tries(i).reply.None?
    ensures var (elapsed, reply) := Backoff(tries, 0, RESEND_DELAY0);
      && reply == tries(k).reply
      && elapsed == Waited(tries, k) + tries(k).took
  {
    var b1 := Backoff(tries, 1, 8 * SECOND);
    var b2 := Backoff(tries, 2, 16 * SECOND);
    var b3 := Backoff(tries, 3, 32 * SECOND);
    var b4 := Backoff(tries, 4, 64 * SECOND);
    assert Waited(tries, 0) == 0 && Waited(tries, 1) == tries(0).took + 4 * SECOND + tries(0).jitter;
    assert Waited(tries, 2) == Waited(tries, 1) + tries(1).took + 8 * SECOND + tries(1).jitter;
  }

  /** The first k tries and the pauses after them: four seconds, doubled every time, and the jitter. */
  function Waited(tries: nat -> Try, k: nat): int {
    if k == 0 then 0 else Waited(tries, k - 1) + tries(k - 1).took + Pow2(k - 1) * 4 * SECOND + tries(k - 1).jitter
  }

  // ---- renew and acquire ----

  /** An attempt: opening the client, and the tries made with it. */
  datatype Attempt = Attempt(opens: bool, opening: nat, linkUp: bool, tries: nat -> Try)

  /** The time an attempt takes and the reply it ends with. */
  function Tried(a: Attempt): (int, Option<Options>) {
    if !a.opens then (a.opening, None)
    else
      var (elapsed, reply) := Backoff(a.tries, 0, RESEND_DELAY0);
      (a.opening + elapsed, reply)
  }

  /** Acquiring may also fail to bring the link up. */
  function Acquired(a: Attempt): (int, Option<Options>) {
    if a.opens && !a.linkUp then (a.opening, None) else Tried(a)
  }

  /**
   * Renewing gets an answer exactly if the client opens and one of five tries does; acquiring needs
   * the link up as well. Where it fails earlier it takes the time of opening only.
   */
  lemma AnsweredExactly(a: Attempt)
    ensures Tried(a).1.Some? <==> a.opens && exists k :: 0 <= k < 5 && a.tries(k).reply.Some?
    ensures Acquired(a).1.Some? <==> a.opens && a.linkUp && exists k :: 0 <= k < 5 && a.tries(k).reply.Some?
    ensures !a.opens ==> Tried(a).0 == a.opening
    ensures !a.opens || !a.linkUp ==> Acquired(a).0 == a.opening
    ensures a.opens && a.linkUp ==> Acquired(a) == Tried(a)
  {
    hide Backoff;
    if Backoff(a.tries, 0, RESEND_DELAY0).1.None? {
      BackoffFailure(a.tries);
    } else if !exists k :: 0 <= k < 5 && a.tries(k).reply.Some? {
      NoAnswer(a.tries);
    }
  }

  /** The answer is the first one; it takes opening, the tries before it and their pauses, and its own try. */
  lemma AnswerTakes(a: Attempt, k: nat)
    requires a.opens && k < 5 && a.tries(k).reply.Some? && forall i :: 0 <= i < k ==> a.tries(i).reply.None?
    ensures Tried(a) == (a.opening + Waited(a.tries, k) + a.tries(k).took, a.tries(k).reply)
  {
    hide Backoff;
    hide Waited;
    BackoffAnswers(a.tries, k);
  }

  lemma NoAnswer(tries: nat -> Try)
    requires forall k :: 0 <= k < 5 ==> tries(k).reply.None?
    ensures Backoff(tries, 0, RESEND_DELAY0).1.None?
  {
    var b1 := Backoff(tries, 1, 8 * SECOND);
    var b2 := Backoff(tries, 2, 16 * SECOND);
    var b3 := Backoff(tries, 3, 32 * SECOND);
    var b4 := Backoff(tries, 4, 64 * SECOND);
  }

  // ---- maintain ----

  datatype Phase = Bound | Renewing | Rebinding | InterfaceDown | Released

  datatype Lease = Lease(phase: Phase, now: int, times: Times)

  /** What the world does during one round: the attempt's course, and when a stop request arrives at the select. */
  datatype Round = Round(attempt: Attempt, stop: Option<nat>)

  /** The select at the end of a round: the timer after sleep, or the stop request if it comes first. */
  function Select(l: Lease, sleep: nat, stop: Option<nat>): Lease {
    if stop.Some? && stop.value <= sleep then l.(phase := Released, now := l.now + stop.value)
    else l.(now := l.now + sleep)
  }

  /** One round of maintain's loop. */
  function Step(l: Lease, r: Round): Lease {
    match l.phase
    case Bound =>
      if l.times.renewal - l.now <= 0 then l.(phase := Renewing)
      else Select(l, l.times.renewal - l.now, r.stop)
    case Renewing =>
      var now := l.now + Tried(r.attempt).0;
      (match Tried(r.attempt).1
       case None => Select(Lease(if now > l.times.rebinding then Rebinding else Renewing, now, l.times), 0, r.stop)
       case Some(opts) => Select(Lease(Bound, now, Committed(opts, now).GetOr(l.times)), 0, r.stop))
    case Rebinding =>
      var now, reply := l.now + Acquired(r.attempt).0, Acquired(r.attempt).1;
      if reply.None? || Committed(reply.value, now).None? then
        if now > l.times.expire then Lease(InterfaceDown, now, l.times)
        else Select(Lease(Rebinding, now, l.times), 0, r.stop)
      else Select(Lease(Bound, now, Committed(reply.value, now).value), 0, r.stop)
    case _ => l
  }

  function RunRounds(l: Lease, rounds: seq<Round>): Lease
    decreases rounds
  {
    if rounds == [] then l else RunRounds(Step(l, rounds[0]), rounds[1..])
  }

  lemma RunRoundsFront(l: Lease, rounds: seq<Round>, i: nat)
    requires i < |rounds|
    ensures RunRounds(l, rounds[i..]) == RunRounds(Step(l, rounds[i]), rounds[i + 1..])
  {
    hide Step;
    assert rounds[i..][0] == rounds[i] && rounds[i..][1..] == rounds[i + 1..];
  }

  class DHCPLease {
    var renewalTime: int
    var rebindingTime: int
    var expireTime: int
    /** The clock. */
    var now: int
    var interfaceUp: bool
    var released: bool

    constructor (now: int)
      ensures this.now == now && interfaceUp && !released
    {
      this.now, interfaceUp, released := now, true, false;
      renewalTime, rebindingTime, expireTime := now, now, now;
    }

    function LeaseTimes(): Times
      reads this
    {
      Times(renewalTime, rebindingTime, expireTime)
    }

    method Commit(opts: Options) returns (ok: bool)
      modifies this`renewalTime, this`rebindingTime, this`expireTime
      ensures ok <==> Committed(opts, now).Some?
      ensures LeaseTimes() == Committed(opts, now).GetOr(old(LeaseTimes()))
    {
      hide Wrap64;
      hide Truncated;
      hide Value;
      var leaseTime := ParseDuration(opts, OPTION_LEASE_TIME);
      if leaseTime.None? {
        return false;
      }
      var t2 := ParseDuration(opts, OPTION_REBINDING_TIME);
      var rebinding: int;
      if t2.None? || t2.value > leaseTime.value {
        rebinding := Truncated(Wrap64(leaseTime.value * 85), 100);
      } else {
        rebinding := t2.value;
      }
      var t1 := ParseDuration(opts, OPTION_RENEWAL_TIME);
      var renewal: int;
      if t1.None? || t1.value > rebinding {
        renewal := Truncated(leaseTime.value, 2);
      } else {
        renewal := t1.value;
      }
      expireTime := now + leaseTime.value;
      renewalTime := now + renewal;
      rebindingTime := now + rebinding;
      return true;
    }

    /** renew takes the result of commit for granted. */
    method Renew(a: Attempt) returns (ok: bool)
      modifies this
      ensures now == old(now) + Tried(a).0
      ensures ok == Tried(a).1.Some?
      ensures LeaseTimes()
           == if ok then Committed(Tried(a).1.value, now).GetOr(old(LeaseTimes())) else old(LeaseTimes())
      ensures interfaceUp == old(interfaceUp) && released == old(released)
    {
      hide Committed;
      now := now + a.opening;
      if !a.opens {
        return false;
      }
      var elapsed, reply := BackoffRetry(a.tries);
      now := now + elapsed;
      if reply.None? {
        return false;
      }
      var ignored := Commit(reply.value);
      return true;
    }

    method Acquire(a: Attempt) returns (ok: bool)
      modifies this
      ensures now == old(now) + Acquired(a).0
      ensures ok == (Acquired(a).1.Some? && Committed(Acquired(a).1.value, now).Some?)
      ensures LeaseTimes() == if ok then Committed(Acquired(a).1.value, now).value else old(LeaseTimes())
      ensures interfaceUp == old(interfaceUp) && released == old(released)
    {
      hide Committed;
      now := now + a.opening;
      if !a.opens || !a.linkUp {
        return false;
      }
      var elapsed, reply := BackoffRetry(a.tries);
      now := now + elapsed;
      if reply.None? {
        return false;
      }
      ok := Commit(reply.value);
    }

    /**
     * maintain, for as many rounds as the world provides; running says that the loop has not
     * returned by then.
     */
    method Maintain(rounds: seq<Round>) returns (final: Phase)
      requires interfaceUp && !released
      modifies this
      ensures Lease(final, now, LeaseTimes()) == RunRounds(Lease(Bound, old(now), old(LeaseTimes())), rounds)
      ensures interfaceUp <==> final != InterfaceDown
      ensures released <==> final == Released
    {
      hide Committed;
      hide Tried;
      hide Acquired;
      hide RunRounds;
      final := Bound;
      ghost var all := RunRounds(Lease(Bound, now, LeaseTimes()), rounds);
      assert rounds[0..] == rounds;
      for i := 0 to |rounds|
        invariant final.Bound? || final.Renewing? || final.Rebinding?
        invariant interfaceUp && !released
        invariant all == RunRounds(Lease(final, now, LeaseTimes()), rounds[i..])
      {
        var r := rounds[i];
        RunRoundsFront(Lease(final, now, LeaseTimes()), rounds, i);
        ghost var next := Step(Lease(final, now, LeaseTimes()), r);
        var sleepDur := 0;
        match final {
          case Bound =>
            sleepDur := renewalTime - now;
            if sleepDur <= 0 {
              final := Renewing;
              continue;
            }
          case Renewing =>
            var ok := Renew(r.attempt);
            if !ok {
              if now > rebindingTime {
                final := Rebinding;
              }
            } else {
              final := Bound;
            }
          case Rebinding =>
            var ok := Acquire(r.attempt);
            if !ok {
              if now > expireTime {
                interfaceUp := false;
                final := InterfaceDown;
                EndedStays(Lease(final, now, LeaseTimes()), rounds[i + 1..]);
                return;
              }
            } else {
              final := Bound;
            }
        }
        if r.stop.Some? && r.stop.value <= sleepDur {
          now := now + r.stop.value;
          released := true;
          final := Released;
          EndedStays(Lease(final, now, LeaseTimes()), rounds[i + 1..]);
          return;
        }
        now := now + sleepDur;
        assert Lease(final, now, LeaseTimes()) == next;
      }
      RunRoundsNone(Lease(final, now, LeaseTimes()));
      assert rounds[|rounds|..] == [];
    }
  }

  lemma RunRoundsNone(l: Lease)
    ensures RunRounds(l, []) == l
  {
  }

  lemma {:induction false} EndedStays(l: Lease, rounds: seq<Round>)
    requires l.phase.InterfaceDown? || l.phase.Released?
    ensures RunRounds(l, rounds) == l
  {
    if rounds != [] {
      EndedStays(l, rounds[1..]);
    }
  }

  // ---- Expiry ----

  /** The renew or acquire of this round, if there is one, does not succeed. */
  ghost predicate Fails(l: Lease, r: Round) {
    && (l.phase.Renewing? ==> Tried(r.attempt).1.None?)
    && (l.phase.Rebinding? ==> Acquired(r.attempt).1.None? || !NamesLeaseTime(Acquired(r.attempt).1.value))
  }

  /** A reply commit accepts, at whatever moment. */
  predicate NamesLeaseTime(opts: Options) {
    ParseDuration(opts, OPTION_LEASE_TIME).Some?
  }

  /** The time this round's attempt takes. */
  function AttemptTime(l: Lease, r: Round): int {
    match l.phase
    case Renewing => Tried(r.attempt).0
    case Rebinding => Acquired(r.attempt).0
    case _ => 0
  }

  /** No attempt along the run succeeds, renew attempts take at most so long, and acquire attempts. */
  ghost predicate Failing(l: Lease, rounds: seq<Round>, renew: nat, acquire: nat)
    decreases rounds
  {
    rounds != [] ==>
      && Fails(l, rounds[0])
      && AttemptTime(l, rounds[0]) <= (if l.phase.Renewing? then renew else acquire)
      && Failing(Step(l, rounds[0]), rounds[1..], renew, acquire)
  }

  ghost predicate Ordered(t: Times) {
    t.renewal <= t.expire && t.rebinding <= t.expire
  }

  /** How late each phase can be, when renewing and acquiring take at most so long. */
  ghost predicate OnTime(l: Lease, renew: nat, acquire: nat) {
    match l.phase
    case Bound => l.now <= l.times.renewal
    case Renewing => l.now <= l.times.expire
    case Rebinding => l.now <= l.times.expire + renew
    case InterfaceDown => l.times.expire < l.now <= l.times.expire + renew + acquire
    case Released => true
  }

  lemma StepOnTime(l: Lease, r: Round, renew: nat, acquire: nat)
    requires Ordered(l.times) && OnTime(l, renew, acquire) && Fails(l, r)
    requires AttemptTime(l, r) <= if l.phase.Renewing? then renew else acquire
    ensures Step(l, r).times == l.times && OnTime(Step(l, r), renew, acquire)
  {
    hide Backoff;
    hide ParseDuration;
  }

  /**
   * While no renew or acquire succeeds, maintain brings the interface down only strictly after the
   * expiry time, and is at no moment later than the length of one renew and one acquire attempt
   * after it without having brought it down or having been stopped.
   */
  lemma {:induction false} DownOnlyAfterExpiry(l: Lease, rounds: seq<Round>, renew: nat, acquire: nat)
    requires Ordered(l.times) && OnTime(l, renew, acquire) && Failing(l, rounds, renew, acquire)
    ensures var final := RunRounds(l, rounds); final.times == l.times && OnTime(final, renew, acquire)
    decreases |rounds|
  {
    hide Step;
    hide Fails;
    hide AttemptTime;
    if rounds != [] {
      StepOnTime(l, rounds[0], renew, acquire);
      DownOnlyAfterExpiry(Step(l, rounds[0]), rounds[1..], renew, acquire);
    }
  }

  // ---- The phase follows the clock ----

  /** A renewal is answered, but without a usable lease time. */
  predicate LeaselessRenewal(r: Round) {
    Tried(r.attempt).1.Some? && !NamesLeaseTime(Tried(r.attempt).1.value)
  }

  /** No renewal along the run is answered without lease time. */
  ghost predicate Answered(l: Lease, rounds: seq<Round>)
    decreases rounds
  {
    rounds != [] ==>
      (l.phase.Renewing? ==> !LeaselessRenewal(rounds[0])) && Answered(Step(l, rounds[0]), rounds[1..])
  }

  /** Where the clock stands in each phase: T1 ends the bound phase, T2 the renewing, the expiry the rebinding. */
  predicate InTime(l: Lease) {
    match l.phase
    case Bound => l.now <= l.times.renewal
    case Renewing => l.times.renewal <= l.now && (l.now <= l.times.renewal || l.now <= l.times.rebinding)
    case Rebinding => l.times.renewal <= l.now && l.times.rebinding < l.now
    case InterfaceDown => l.times.renewal <= l.now && l.times.expire < l.now
    case Released => true
  }

  /** Attempts take time or none, never less. */
  lemma {:induction false} BackoffTakesTime(tries: nat -> Try, i: nat, baseDelay: int)
    requires baseDelay >= RESEND_DELAY0
    ensures Backoff(tries, i, baseDelay).0 >= 0
    decreases 2 * RESEND_DELAY_MAX - baseDelay
  {
    if tries(i).reply.None? && baseDelay < RESEND_DELAY_MAX {
      BackoffTakesTime(tries, i + 1, baseDelay * 2);
    }
  }

  lemma AttemptsTakeTime(a: Attempt)
    ensures Tried(a).0 >= 0 && Acquired(a).0 >= 0
  {
    hide Backoff;
    BackoffTakesTime(a.tries, 0, RESEND_DELAY0);
  }

  lemma StepInTime(l: Lease, r: Round)
    requires InTime(l) && (l.phase.Renewing? ==> !LeaselessRenewal(r))
    ensures InTime(Step(l, r))
  {
    hide Tried;
    hide Acquired;
    hide ParseDuration;
    hide Committed;
    AttemptsTakeTime(r.attempt);
    if l.phase.Renewing? && Tried(r.attempt).1.Some? {
      CommitIsAhead(Tried(r.attempt).1.value, l.now + Tried(r.attempt).0);
    } else if l.phase.Rebinding? && Acquired(r.attempt).1.Some? {
      CommitIsAhead(Acquired(r.attempt).1.value, l.now + Acquired(r.attempt).0);
    }
  }

  /** A reply is committed exactly if it carries a lease time of four bytes, and T1 then lies ahead. */
  lemma CommitIsAhead(opts: Options, now: int)
    ensures Committed(opts, now).Some? <==> NamesLeaseTime(opts)
    ensures NamesLeaseTime(opts) <==> OPTION_LEASE_TIME in opts && |opts[OPTION_LEASE_TIME]| == 4
    ensures Committed(opts, now).Some? ==> now <= Committed(opts, now).value.renewal
  {
    hide Value;
    hide Wrap64;
    if Committed(opts, now).Some? {
      CommittedTimes(opts, now);
    }
  }

  /**
   * Along every run from a moment that is in time, renewals and rebindings included, the phase is
   * the one the clock and the current times call for.
   */
  lemma {:induction false} PhaseFollowsClock(l: Lease, rounds: seq<Round>)
    requires InTime(l) && Answered(l, rounds)
    ensures InTime(RunRounds(l, rounds))
    decreases |rounds|
  {
    hide Step;
    hide InTime;
    hide LeaselessRenewal;
    if rounds != [] {
      StepInTime(l, rounds[0]);
      PhaseFollowsClock(Step(l, rounds[0]), rounds[1..]);
    }
  }

  /** So after a commit, at the end of any run in which every attempt fails. */
  lemma FailingRunInTime(opts: Options, now: int, rounds: seq<Round>, renew: nat, acquire: nat)
    requires Committed(opts, now).Some?
    requires Failing(Lease(Bound, now, Committed(opts, now).value), rounds, renew, acquire)
    ensures var times := Committed(opts, now).value;
      var final := RunRounds(Lease(Bound, now, times), rounds);
      && final.times == times
      && (final.phase.Bound? ==> final.now <= times.renewal)
      && (final.phase.Renewing? ==> final.now <= times.renewal || final.now <= times.rebinding)
      && (final.phase.Rebinding? ==> times.rebinding < final.now <= times.expire + renew)
      && (final.phase.InterfaceDown? ==> times.expire < final.now <= times.expire + renew + acquire)
  {
    hide Committed;
    hide RunRounds;
    hide Failing;
    hide Answered;
    CommittedTimes(opts, now);
    var l := Lease(Bound, now, Committed(opts, now).value);
    DownOnlyAfterExpiry(l, rounds, renew, acquire);
    FailingIsAnswered(l, rounds, renew, acquire);
    PhaseFollowsClock(l, rounds);
  }

  lemma {:induction false} FailingIsAnswered(l: Lease, rounds: seq<Round>, renew: nat, acquire: nat)
    requires Failing(l, rounds, renew, acquire)
    ensures Answered(l, rounds)
    decreases |rounds|
  {
    hide Step;
    hide AttemptTime;
    if rounds != [] {
      FailingIsAnswered(Step(l, rounds[0]), rounds[1..], renew, acquire);
    }
  }

  lemma {:induction false} RunRoundsLast(l: Lease, rounds: seq<Round>, r: Round)
    ensures RunRounds(l, rounds + [r]) == Step(RunRounds(l, rounds), r)
    decreases |rounds|
  {
    hide Step;
    if rounds == [] {
      assert (rounds + [r])[1..] == [] && (rounds + [r])[0] == r;
    } else {
      assert (rounds + [r])[1..] == rounds[1..] + [r] && (rounds + [r])[0] == rounds[0];
      RunRoundsLast(Step(l, rounds[0]), rounds[1..], r);
    }
  }

  /**
   * At any moment of a run: a renewal that fails is followed by rebinding exactly if the clock has
   * passed T2, and one that is answered by the bound phase, under the times of the answer or, if it
   * names no lease time, the old ones; unless a stop request is there already.
   */
  lemma AfterRenewal(l: Lease, rounds: seq<Round>, r: Round)
    requires RunRounds(l, rounds).phase.Renewing?
    ensures var before, after, reply := RunRounds(l, rounds), RunRounds(l, rounds + [r]), Tried(r.attempt).1;
      && after.now == before.now + Tried(r.attempt).0 >= before.now
      && (after.phase.Released? <==> r.stop == Some(0))
      && (r.stop != Some(0) ==>
            && (after.phase.Bound? <==> reply.Some?)
            && (after.phase.Rebinding? <==> reply.None? && after.now > before.times.rebinding)
            && (after.phase.Renewing? <==> reply.None? && after.now <= before.times.rebinding))
      && (reply.Some? && NamesLeaseTime(reply.value) ==> Some(after.times) == Committed(reply.value, after.now))
      && (reply.None? || !NamesLeaseTime(reply.value) ==> after.times == before.times)
  {
    hide RunRounds;
    hide Tried;
    hide ParseDuration;
    RunRoundsLast(l, rounds, r);
    AttemptsTakeTime(r.attempt);
  }

  /**
   * At any moment of a run: rebinding ends with an answer that names a lease time, or with the
   * interface down exactly if the clock has passed the expiry.
   */
  lemma AfterRebinding(l: Lease, rounds: seq<Round>, r: Round)
    requires RunRounds(l, rounds).phase.Rebinding?
    ensures var before, after, reply := RunRounds(l, rounds), RunRounds(l, rounds + [r]), Acquired(r.attempt).1;
      var bound := reply.Some? && NamesLeaseTime(reply.value);
      && after.now == before.now + Acquired(r.attempt).0 >= before.now
      && (after.phase.InterfaceDown? <==> !bound && after.now > before.times.expire)
      && (after.phase.Released? <==> !after.phase.InterfaceDown? && r.stop == Some(0))
      && (r.stop != Some(0) ==> (after.phase.Bound? <==> bound))
      && (r.stop != Some(0) ==> (after.phase.Rebinding? <==> !bound && after.now <= before.times.expire))
      && (if bound then Some(after.times) == Committed(reply.value, after.now) else after.times == before.times)
  {
    hide RunRounds;
    hide Acquired;
    hide ParseDuration;
    RunRoundsLast(l, rounds, r);
    AttemptsTakeTime(r.attempt);
  }

  /**
   * At any moment of a run: while bound the client sleeps until T1 to the nanosecond and then renews,
   * unless a stop request comes first, which is honoured when it comes.
   */
  lemma AfterSleep(l: Lease, rounds: seq<Round>, r: Round)
    requires RunRounds(l, rounds).phase.Bound?
    ensures var before, after := RunRounds(l, rounds), RunRounds(l, rounds + [r]);
      && after.times == before.times
      && (after.phase.Renewing? <==> before.now >= before.times.renewal)
      && (after.phase.Renewing? ==> after.now == before.now)
      && (after.phase.Released? <==>
            before.now < before.times.renewal && r.stop.Some? && before.now + r.stop.value <= before.times.renewal)
      && (after.phase.Released? ==> after.now == before.now + r.stop.value)
      && (!after.phase.Renewing? && !after.phase.Released? ==>
            after.phase.Bound? && after.now == before.times.renewal)
  {
    hide RunRounds;
    RunRoundsLast(l, rounds, r);
  }

  // ---- Losing the lease ----

  /** Along the run every attempt fails and takes at least so long, and nobody asks to stop. */
  ghost predicate Lasting(l: Lease, rounds: seq<Round>, least: nat)
    decreases rounds
  {
    rounds != [] ==>
      && Fails(l, rounds[0]) && rounds[0].stop.None?
      && (l.phase.Renewing? || l.phase.Rebinding? ==> AttemptTime(l, rounds[0]) >= least)
      && Lasting(Step(l, rounds[0]), rounds[1..], least)
  }

  /** How many failing attempts of the least length fit in before the time has passed. */
  function AttemptsLeft(now: int, expire: int, least: nat): nat
    requires least > 0
  {
    if now <= expire then (expire - now) / least + 1 else 0
  }

  lemma AttemptCounts(now: int, expire: int, least: nat, took: int)
    requires least > 0 && took >= least && now <= expire
    ensures AttemptsLeft(now + took, expire, least) < AttemptsLeft(now, expire, least)
  {
    if now + took <= expire {
      var x, y := expire - now - took, expire - now;
      var q, r := x / least, x % least;
      assert x == q * least + r;
      Gap(y / least, q + 1, least);
      assert (q + 1) * least == q * least + least;
      assert y == y / least * least + y % least;
    }
  }

  /** How many rounds are left at most before the interface goes down. */
  function RoundsLeft(l: Lease, least: nat): nat
    requires least > 0
  {
    match l.phase
    case Bound =>
      (if l.now < l.times.renewal then 1 else 0) + 3
      + AttemptsLeft(if l.now <= l.times.renewal then l.times.renewal else l.now, l.times.expire, least)
    case Renewing => AttemptsLeft(l.now, l.times.expire, least) + 2
    case Rebinding => AttemptsLeft(l.now, l.times.expire, least) + 1
    case _ => 0
  }

  lemma StepAdvances(l: Lease, r: Round, least: nat)
    requires least > 0 && Ordered(l.times) && Fails(l, r) && r.stop.None?
    requires l.phase.Renewing? || l.phase.Rebinding? ==> AttemptTime(l, r) >= least
    requires l.phase.Bound? || l.phase.Renewing? || l.phase.Rebinding?
    ensures Step(l, r).times == l.times && !Step(l, r).phase.Released?
    ensures RoundsLeft(Step(l, r), least) < RoundsLeft(l, least)
  {
    hide Backoff;
    hide Tried;
    hide Acquired;
    hide ParseDuration;
    hide AttemptsLeft;
    var took := AttemptTime(l, r);
    if !l.phase.Bound? {
      if l.now <= l.times.expire {
        AttemptCounts(l.now, l.times.expire, least, took);
      } else {
        NoneLeft(l.now, l.times.expire, least);
        NoneLeft(l.now + took, l.times.expire, least);
      }
    }
  }

  lemma NoneLeft(now: int, expire: int, least: nat)
    requires least > 0 && now > expire
    ensures AttemptsLeft(now, expire, least) == 0
  {
  }

  /**
   * If no renew or acquire succeeds and every attempt takes some least time, the interface does go
   * down, within a number of rounds that the time left allows for.
   */
  lemma {:induction false} GoesDown(l: Lease, rounds: seq<Round>, least: nat)
    requires least > 0 && Ordered(l.times) && !l.phase.Released?
    requires Lasting(l, rounds, least) && |rounds| >= RoundsLeft(l, least)
    ensures RunRounds(l, rounds).phase == InterfaceDown
    decreases |rounds|
  {
    hide Step;
    hide Fails;
    hide AttemptTime;
    hide AttemptsLeft;
    if l.phase.InterfaceDown? {
      EndedStays(l, rounds);
    } else {
      assert RoundsLeft(l, least) > 0;
      StepAdvances(l, rounds[0], least);
      GoesDown(Step(l, rounds[0]), rounds[1..], least);
    }
  }

  /**
   * Lease loss, from a commit on: if no renew or acquire succeeds afterwards, the interface goes
   * down after the expiry and at most one renew and one acquire attempt later.
   */
  lemma FailureEndsTheLease(opts: Options, now: int, rounds: seq<Round>, renew: nat, acquire: nat, least: nat)
    requires Committed(opts, now).Some? && least > 0
    requires Failing(Lease(Bound, now, Committed(opts, now).value), rounds, renew, acquire)
    requires Lasting(Lease(Bound, now, Committed(opts, now).value), rounds, least)
    requires |rounds| >= RoundsLeft(Lease(Bound, now, Committed(opts, now).value), least)
    ensures var times := Committed(opts, now).value;
      var final := RunRounds(Lease(Bound, now, times), rounds);
      final.phase == InterfaceDown && times.expire < final.now <= times.expire + renew + acquire
  {
    hide Committed;
    hide RunRounds;
    hide RoundsLeft;
    hide Failing;
    hide Lasting;
    CommittedTimes(opts, now);
    var l := Lease(Bound, now, Committed(opts, now).value);
    DownOnlyAfterExpiry(l, rounds, renew, acquire);
    GoesDown(l, rounds, least);
  }

  // ---- How long failing takes ----

  const LEAST_FAILURE := 119 * SECOND

  /** No reply at all, though the client opens and the link comes up; nobody asks to stop. */
  predicate Silent(r: Round) {
    Tried(r.attempt).1.None? && r.stop.None? && r.attempt.opens && r.attempt.linkUp
  }

  lemma FailedAttemptTakes(r: Round)
    requires Silent(r)
    ensures Tried(r.attempt).0 >= r.attempt.opening + LEAST_FAILURE && Acquired(r.attempt) == Tried(r.attempt)
  {
    hide Backoff;
    BackoffFailure(r.attempt.tries);
  }

  /** In silence every attempt goes through the whole backoff, so 119 seconds are a least time. */
  lemma {:induction false} SilenceLasts(l: Lease, rounds: seq<Round>)
    requires forall i :: 0 <= i < |rounds| ==> Silent(rounds[i])
    ensures Lasting(l, rounds, LEAST_FAILURE)
    decreases |rounds|
  {
    hide Step;
    hide Silent;
    if rounds != [] {
      SilentFails(l, rounds[0]);
      SilenceLasts(Step(l, rounds[0]), rounds[1..]);
    }
  }

  lemma SilentFails(l: Lease, r: Round)
    requires Silent(r)
    ensures Fails(l, r) && r.stop.None?
    ensures l.phase.Renewing? || l.phase.Rebinding? ==> AttemptTime(l, r) >= LEAST_FAILURE
  {
    hide Backoff;
    FailedAttemptTakes(r);
  }

  // ---- Acknowledgements without lease time ----

  /** The server answers at once, but without a usable lease time. */
  predicate AnswersAtOnce(r: Round) {
    && r.stop.None? && r.attempt.opens && r.attempt.linkUp && r.attempt.opening == 0
    && r.attempt.tries(0).took == 0
    && r.attempt.tries(0).reply.Some? && !NamesLeaseTime(r.attempt.tries(0).reply.value)
  }

  /**
   * A failed acquire need not take 119 seconds, nor any time: while the server acknowledges at once
   * without lease time, any number of failing rounds leaves machine and clock where they were.
   */
  lemma {:induction false} LeaselessAcquireTakesNoTime(l: Lease, rounds: seq<Round>)
    requires l.phase.Rebinding? && l.now <= l.times.expire
    requires forall i :: 0 <= i < |rounds| ==> AnswersAtOnce(rounds[i])
    ensures RunRounds(l, rounds) == l && Failing(l, rounds, 0, 0)
    decreases |rounds|
  {
    hide ParseDuration;
    hide RunRounds;
    if rounds == [] {
      RunRoundsNone(l);
    } else {
      AnsweredStep(l, rounds[0]);
      RunRoundsFront(l, rounds, 0);
      assert rounds[0..] == rounds;
      LeaselessAcquireTakesNoTime(l, rounds[1..]);
    }
  }

  lemma AnsweredStep(l: Lease, r: Round)
    requires l.phase.Rebinding? && l.now <= l.times.expire && AnswersAtOnce(r)
    ensures Step(l, r) == l && Fails(l, r) && AttemptTime(l, r) == 0
  {
    hide ParseDuration;
    assert Backoff(r.attempt.tries, 0, RESEND_DELAY0) == (0, r.attempt.tries(0).reply);
  }

  /**
   * Since renew takes commit for granted, a server that answers every renewal without lease time
   * keeps the machine between bound and renewing with the old times: it never rebinds and never
   * brings the interface down, however far the clock passes the expiry.
   */
  lemma {:induction false} LeaselessRenewalsNeverEnd(l: Lease, rounds: seq<Round>)
    requires l.phase.Bound? || l.phase.Renewing?
    requires forall i :: 0 <= i < |rounds| ==> LeaselessRenewal(rounds[i])
    ensures var final := RunRounds(l, rounds);
      final.times == l.times && !final.phase.Rebinding? && !final.phase.InterfaceDown?
    decreases |rounds|
  {
    hide Step;
    hide LeaselessRenewal;
    if rounds != [] {
      LeaselessStep(l, rounds[0]);
      if Step(l, rounds[0]).phase.Released? {
        EndedStays(Step(l, rounds[0]), rounds[1..]);
      } else {
        LeaselessRenewalsNeverEnd(Step(l, rounds[0]), rounds[1..]);
      }
    }
  }

  lemma LeaselessStep(l: Lease, r: Round)
    requires (l.phase.Bound? || l.phase.Renewing?) && LeaselessRenewal(r)
    ensures var next := Step(l, r);
      next.times == l.times && (next.phase.Bound? || next.phase.Renewing? || next.phase.Released?)
  {
    hide Tried;
    hide ParseDuration;
  }

  /** The clock does pass the expiry: two rounds with a slow answer suffice. */
  lemma LeaselessRenewalOutlivesTheLease(l: Lease, opts: Options)
    requires l.phase.Bound? && l.times.renewal <= l.now <= l.times.expire && !NamesLeaseTime(opts)
    ensures exists rounds ::
      && (forall i :: 0 <= i < |rounds| ==> LeaselessRenewal(rounds[i]))
      && RunRounds(l, rounds).phase == Bound && RunRounds(l, rounds).now > l.times.expire
  {
    hide ParseDuration;
    var wait: nat := l.times.expire - l.now + 1;
    var answer := Try(wait, Some(opts), 0);
    var slow := Round(Attempt(true, 0, true, (i: nat) => answer), None);
    assert Backoff(slow.attempt.tries, 0, RESEND_DELAY0) == (wait, Some(opts));
    var rounds := [slow, slow];
    assert rounds[1..] == [slow] && [slow][1..] == [];
    var l1 := Step(l, slow);
    var l2 := Step(l1, slow);
    assert RunRounds(l1, [slow]) == RunRounds(l2, []);
    assert RunRounds(l, rounds) == l2;
  }
}
