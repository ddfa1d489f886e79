/**
 * The retry loop that fetches one published package. The registry, the clock and the pause are parameters: what each
 * attempt is answered, and when. The clock is read at the check that follows an attempt, and a pause takes its time,
 * so readings are at least a pause apart.
 */
module FetchPublished {
  import opened Collections
  import opened Text

  /** A response's status, and whether `ok` holds of it. */
  datatype Response<T> = Ok(body: T) | Status(code: int)

  /** What one attempt is answered: the metadata, with its tarball's hash if it names one, and that tarball. */
  datatype Attempt = Attempt(metadata: Response<Option<string>>, tarball: Response<string>)

  datatype Result =
    | Fetched(bytes: string, integrity: string)
    | NoDist
    | DownloadFailed(code: int)
    | Answered(code: int)

  const RETRY_MS := 15000

  /** What an attempt comes to. */
  function Outcome(a: Attempt): Result {
    match a.metadata
    case Status(code) => Answered(code)
    case Ok(None) => NoDist
    case Ok(Some(integrity)) =>
      match a.tarball
      case Ok(bytes) => Fetched(bytes, integrity)
      case Status(code) => DownloadFailed(code)
  }

  /** A 404, on the metadata or on the tarball, may be a version that is not served yet. */
  predicate IsMissing(r: Result) { r == Answered(404) || r == DownloadFailed(404) }

  /** The clock at the check of each attempt: never before the start, and a pause apart. */
  ghost predicate Advances(start: int, clock: nat -> int) {
    start <= clock(0) && forall i: nat :: clock(i + 1) >= clock(i) + RETRY_MS
  }

  /** `start + wait`: no number stays no number. */
  function Deadline(start: int, wait: Num): Num {
    match wait
    case Finite(w) => Finite(start as real + w)
    case Infinite(_) => wait
    case NaN => NaN
  }

  /** `now >= deadline`, which is false of what is not a number. */
  predicate Reached(now: int, deadline: Num) {
    match deadline
    case Finite(d) => now as real >= d
    case Infinite(positive) => !positive
    case NaN => false
  }

  /** The attempt at which the loop ends: the first that is not a 404, or that is checked after the deadline. */
  ghost predicate EndsAt(attempts: nat -> Attempt, clock: nat -> int, deadline: Num, n: nat) {
    && (forall i :: 0 <= i < n ==> IsMissing(Outcome(attempts(i))) && !Reached(clock(i), deadline))
    && (IsMissing(Outcome(attempts(n))) ==> Reached(clock(n), deadline))
  }

  ghost predicate Ends(attempts: nat -> Attempt, clock: nat -> int, deadline: Num) {
    exists n: nat :: EndsAt(attempts, clock, deadline, n)
  }

  /** A wait that some reading of the clock gets past. */
  predicate Passes(wait: Num) { wait.Finite? || wait == Infinite(false) }

  /** The result is that of the attempt the loop ends at; every pause before it began within the wait. */
  method Fetch(attempts: nat -> Attempt, clock: nat -> int, start: int, wait: Num) returns (result: Result)
    requires Advances(start, clock) && Passes(wait)
    ensures exists n: nat ::
      && EndsAt(attempts, clock, Deadline(start, wait), n) && result == Outcome(attempts(n))
      && (n > 0 ==> wait.Finite? && ((n - 1) * RETRY_MS) as real < wait.value)
  {
    var deadline := Deadline(start, wait);
    var i := 0;
    ghost var last := PassedAt(start, clock, wait);
    while true
      invariant i <= last
      invariant forall k :: 0 <= k < i ==> IsMissing(Outcome(attempts(k))) && !Reached(clock(k), deadline)
      decreases last - i
    {
      if i > 0 { PausesFit(start, clock, wait, i - 1); }
      var a := attempts(i);
      match a.metadata {
        case Ok(integrity) =>
          if integrity.None? { return NoDist; }
          match a.tarball {
            case Ok(bytes) => return Fetched(bytes, integrity.value);
            case Status(code) => if code != 404 || Reached(clock(i), deadline) { return DownloadFailed(code); }
          }
        case Status(code) => if code != 404 || Reached(clock(i), deadline) { return Answered(code); }
      }
      i := i + 1;
    }
  }

  lemma {:induction false} ClockAt(start: int, clock: nat -> int, i: nat)
    requires Advances(start, clock)
    ensures clock(i) >= start + i * RETRY_MS
  {
    if i > 0 {
      ClockAt(start, clock, i - 1);
      assert clock(i - 1 + 1) >= clock(i - 1) + RETRY_MS;
    }
  }

  lemma {:induction false} PassedAt(start: int, clock: nat -> int, wait: Num) returns (n: nat)
    requires Advances(start, clock) && Passes(wait)
    ensures Reached(clock(n), Deadline(start, wait))
  {
    n := if wait.Finite? && wait.value > 0.0 then wait.value.Floor + 1 else 0;
    ClockAt(start, clock, n);
  }

  lemma {:induction false} PausesFit(start: int, clock: nat -> int, wait: Num, i: nat)
    requires Advances(start, clock) && Passes(wait) && !Reached(clock(i), Deadline(start, wait))
    ensures wait.Finite? && (i * RETRY_MS) as real < wait.value
  {
    ClockAt(start, clock, i);
  }

  /** The loop can end at one attempt only. */
  lemma {:induction false} EndsOnce(attempts: nat -> Attempt, clock: nat -> int, deadline: Num, m: nat, n: nat)
    requires EndsAt(attempts, clock, deadline, m) && EndsAt(attempts, clock, deadline, n)
    ensures m == n
  {
    assert m < n ==> IsMissing(Outcome(attempts(m))) && !Reached(clock(m), deadline);
    assert n < m ==> IsMissing(Outcome(attempts(n))) && !Reached(clock(n), deadline);
  }

  lemma {:induction false} FirstEnd(attempts: nat -> Attempt, clock: nat -> int, deadline: Num, i: nat, last: nat)
    requires i <= last && Reached(clock(last), deadline)
    requires forall k :: 0 <= k < i ==> IsMissing(Outcome(attempts(k))) && !Reached(clock(k), deadline)
    ensures Ends(attempts, clock, deadline)
    decreases last - i
  {
    if IsMissing(Outcome(attempts(i))) && !Reached(clock(i), deadline) {
      FirstEnd(attempts, clock, deadline, i + 1, last);
    } else {
      assert EndsAt(attempts, clock, deadline, i);
    }
  }

  /** A package that is never served. */
  const NEVER: nat -> Attempt := (i: nat) => Attempt(Status(404), Status(404))

  /**
   * When time advances, the loop ends for all answers exactly when the wait is finite or minus infinity. A wait that is
   * not a number, as `--wait` without one gives, never passes, and a package that is never served is asked for ever.
   */
  lemma {:induction false} AlwaysEndsIff(clock: nat -> int, start: int, wait: Num)
    requires Advances(start, clock)
    ensures (forall attempts: nat -> Attempt :: Ends(attempts, clock, Deadline(start, wait))) <==> Passes(wait)
    ensures !Passes(wait) ==> !Ends(NEVER, clock, Deadline(start, wait))
  {
    if Passes(wait) {
      var last := PassedAt(start, clock, wait);
      forall attempts: nat -> Attempt ensures Ends(attempts, clock, Deadline(start, wait)) {
        FirstEnd(attempts, clock, Deadline(start, wait), 0, last);
      }
    } else {
      forall n: nat ensures !EndsAt(NEVER, clock, Deadline(start, wait), n) {
        assert IsMissing(Outcome(NEVER(n))) && !Reached(clock(n), Deadline(start, wait));
      }
      assert !Ends(NEVER, clock, Deadline(start, wait));
    }
  }

  /** The loop gives up on a 404 only after the deadline, and takes the first answer that is none before it. */
  lemma {:induction false} GivesUpOnlyLate(attempts: nat -> Attempt, clock: nat -> int, start: int, deadline: Num,
                                           n: nat, m: nat)
    requires Advances(start, clock) && EndsAt(attempts, clock, deadline, n)
    requires forall i :: 0 <= i < m ==> IsMissing(Outcome(attempts(i)))
    requires !IsMissing(Outcome(attempts(m))) && (m == 0 || !Reached(clock(m - 1), deadline))
    ensures n == m
  {
    forall i | 0 <= i < m ensures !Reached(clock(i), deadline) { ClockAscends(start, clock, i, m - 1); }
    EndsOnce(attempts, clock, deadline, m, n);
  }

  lemma {:induction false} ClockAscends(start: int, clock: nat -> int, i: nat, j: nat)
    requires Advances(start, clock) && i <= j
    ensures clock(i) <= clock(j)
    decreases j
  {
    if i < j {
      ClockAscends(start, clock, i, j - 1);
      assert clock(j - 1 + 1) >= clock(j - 1) + RETRY_MS;
    }
  }
}
