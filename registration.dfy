/** The start-up registration of a storage node with the master (RegistrationService): up to
    ten attempts with a growing pause between them; failing them all is not fatal, because the
    heartbeat re-registers the node later. */
module Registration {
  import opened Common

  const MAX_RETRIES: nat := 10

  /** The longest pause between two attempts, in seconds. */
  const MAX_WAIT: nat := 5

  /** The outcome of one attempt: the master accepted the registration, or the request failed
      and the pause after it was, or was not, interrupted. */
  datatype Attempt = Accepted | Refused(interrupted: bool)

  /** What autoRegister ends with: whether the node is registered, how many attempts it made,
      and the pauses it completed, in seconds and in order. */
  datatype Registration = Registration(registered: bool, attempts: nat, waits: seq<nat>)

  /** `Math.min(5, attempt)`: the pause after failed attempt number `attempt`. */
  function Backoff(attempt: nat): nat {
    if attempt < MAX_WAIT then attempt else MAX_WAIT
  }

  /** The pauses after attempts 1 to `n`. */
  function Backoffs(n: nat): (w: seq<nat>)
    ensures |w| == n && forall i :: 0 <= i < n ==> w[i] == Backoff(i + 1)
  {
    if n == 0 then [] else Backoffs(n - 1) + [Backoff(n)]
  }

  function Sum(s: seq<nat>): nat {
    if s == [] then 0 else Sum(s[..|s| - 1]) + s[|s| - 1]
  }

  /** Whether the loop ends with attempt number `attempt`: it succeeded, or it failed and the
      pause after it (which the last attempt does not take) was interrupted. */
  predicate EndsWith(a: Attempt, attempt: nat) {
    a.Accepted? || (a.interrupted && attempt < MAX_RETRIES)
  }

  /** The index of the last attempt made, looking from index `k` on. */
  function LastAttempt(outcomes: seq<Attempt>, k: nat): (last: nat)
    requires k < MAX_RETRIES <= |outcomes|
    ensures k <= last < MAX_RETRIES
    decreases MAX_RETRIES - k
  {
    if k == MAX_RETRIES - 1 || EndsWith(outcomes[k], k + 1) then k else LastAttempt(outcomes, k + 1)
  }

  /** autoRegister on the outcomes of its first ten attempts. */
  function Expected(outcomes: seq<Attempt>): Registration
    requires MAX_RETRIES <= |outcomes|
  {
    var last := LastAttempt(outcomes, 0);
    Registration(outcomes[last].Accepted?, last + 1, Backoffs(last))
  }

  /** autoRegister: `outcomes[i]` is what attempt `i + 1` meets. The loop runs while fewer
      than ten attempts were made and none succeeded; after a failure other than the tenth it
      pauses `min(5, attempt)` seconds, and an interrupted pause ends the loop. A failed
      registration is reported, not raised. */
  method AutoRegister(outcomes: seq<Attempt>) returns (registered: bool, attempt: nat, waits: seq<nat>)
    requires MAX_RETRIES <= |outcomes|
    ensures Registration(registered, attempt, waits) == Expected(outcomes)
  {
    attempt := 0;
    registered := false;
    waits := [];
    while attempt < MAX_RETRIES && !registered
      invariant 0 <= attempt <= MAX_RETRIES
      invariant registered || attempt == MAX_RETRIES ==> Registration(registered, attempt, waits) == Expected(outcomes)
      invariant !registered && attempt < MAX_RETRIES ==>
                  waits == Backoffs(attempt) && LastAttempt(outcomes, 0) == LastAttempt(outcomes, attempt)
    {
      attempt := attempt + 1;
      match outcomes[attempt - 1]
      case Accepted =>
        registered := true;
      case Refused(interrupted) =>
        if attempt < MAX_RETRIES {
          var waitTime := Backoff(attempt);
          if interrupted {
            break;
          }
          waits := waits + [waitTime];
        }
    }
  }

  // ---------------------------------------------------------------------------------------
  // Properties
  // ---------------------------------------------------------------------------------------

  /** The attempts before the last one all failed without an interrupted pause. */
  lemma {:induction false} BeforeLast(outcomes: seq<Attempt>, k: nat)
    requires k < MAX_RETRIES <= |outcomes|
    ensures forall i :: k <= i < LastAttempt(outcomes, k) ==> outcomes[i] == Refused(false)
    ensures EndsWith(outcomes[LastAttempt(outcomes, k)], LastAttempt(outcomes, k) + 1) || LastAttempt(outcomes, k) == MAX_RETRIES - 1
    decreases MAX_RETRIES - k
  {
    if !(k == MAX_RETRIES - 1 || EndsWith(outcomes[k], k + 1)) {
      BeforeLast(outcomes, k + 1);
    }
  }

  /** At least one and at most ten attempts are made. The node is registered exactly when some
      attempt succeeded, and then the last attempt is the first success: the loop stops right
      after it. Every earlier attempt failed and its pause ran to the end. */
  lemma Attempts(outcomes: seq<Attempt>)
    requires MAX_RETRIES <= |outcomes|
    ensures var r := Expected(outcomes);
            && 1 <= r.attempts <= MAX_RETRIES
            && (r.registered <==> exists i :: 0 <= i < r.attempts && outcomes[i].Accepted?)
            && (r.registered ==> outcomes[r.attempts - 1].Accepted?)
            && forall i :: 0 <= i < r.attempts - 1 ==> outcomes[i] == Refused(false)
  {
    BeforeLast(outcomes, 0);
  }

  /** A node that is not registered made all ten attempts, or its pause after a failure was
      interrupted; an interrupted pause is the last thing the loop does. */
  lemma NotRegistered(outcomes: seq<Attempt>)
    requires MAX_RETRIES <= |outcomes|
    ensures var r := Expected(outcomes);
            !r.registered ==> r.attempts == MAX_RETRIES || outcomes[r.attempts - 1] == Refused(true)
    ensures forall i :: 0 <= i < MAX_RETRIES - 1 && outcomes[i] == Refused(true) && (forall j :: 0 <= j < i ==> outcomes[j] == Refused(false))
              ==> Expected(outcomes) == Registration(false, i + 1, Backoffs(i))
  {
    BeforeLast(outcomes, 0);
    forall i | 0 <= i < MAX_RETRIES - 1 && outcomes[i] == Refused(true) && (forall j :: 0 <= j < i ==> outcomes[j] == Refused(false))
      ensures LastAttempt(outcomes, 0) == i
    {
      var last := LastAttempt(outcomes, 0);
    }
  }

  /** The pauses follow attempt numbers 1, 2, 3, 4, 5, 5, ...; there is none after the last
      attempt, so the node waits at most 35 seconds in all, and exactly that when all ten
      attempts are made. */
  lemma Waits(outcomes: seq<Attempt>)
    requires MAX_RETRIES <= |outcomes|
    ensures var r := Expected(outcomes);
            && |r.waits| == r.attempts - 1
            && (forall i :: 0 <= i < |r.waits| ==> r.waits[i] == Min(MAX_WAIT, i + 1))
            && Sum(r.waits) <= 35
            && (r.attempts == MAX_RETRIES ==> Sum(r.waits) == 35)
  {
    var r := Expected(outcomes);
    BackoffsTotal(r.attempts - 1);
  }

  /** The pauses after the first `n` attempts add up to at most 35 seconds when `n` is at most
      nine, and to 35 when `n` is nine. */
  lemma {:induction false} BackoffsTotal(n: nat)
    requires n < MAX_RETRIES
    ensures Sum(Backoffs(n)) == if n < MAX_WAIT then [0, 1, 3, 6, 10][n] else 15 + MAX_WAIT * (n - MAX_WAIT)
    ensures Sum(Backoffs(n)) <= 35 && (n == MAX_RETRIES - 1 ==> Sum(Backoffs(n)) == 35)
  {
    if n > 0 {
      BackoffsTotal(n - 1);
      assert Backoffs(n)[..n - 1] == Backoffs(n - 1);
      assert Sum(Backoffs(n)) == Sum(Backoffs(n - 1)) + Backoff(n);
    }
  }
}
