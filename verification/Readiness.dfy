/** Index readiness of internal/lsp/client.go: the flags that $/progress notifications
    set, and the poll loop that waits for them. */
module Readiness {
  import opened Text

  /** A decoded $/progress notification.  The token says which progress it belongs to;
      the client does not look at it.  An end carries no title. */
  datatype Progress = Progress(token: string, kind: string, title: string)

  datatype Flags = Flags(began: bool, ended: bool)

  function Lower(s: string): string {
    seq(|s|, k requires 0 <= k < |s| => ToLower(s[k]))
  }

  /** strings.Contains */
  predicate Contains(s: string, t: string) {
    t <= s || (s != "" && Contains(s[1..], t))
  }

  predicate IsIndexBegin(p: Progress) {
    p.kind == "begin" && Contains(Lower(p.title), "index")
  }

  predicate IsEnd(p: Progress) {
    p.kind == "end"
  }

  function Track(f: Flags, p: Progress): Flags {
    if p.kind == "begin" then (if Contains(Lower(p.title), "index") then f.(began := true) else f)
    else if p.kind == "end" then (if f.began then f.(ended := true) else f)
    else f
  }

  /** The notifications received so far, latest last. */
  datatype Log = Empty | Then(before: Log, last: Progress)

  function FlagsAfter(log: Log): Flags {
    match log
    case Empty => Flags(false, false)
    case Then(before, p) => Track(FlagsAfter(before), p)
  }

  predicate SomeIndexBegin(log: Log) {
    log.Then? && (IsIndexBegin(log.last) || SomeIndexBegin(log.before))
  }

  /** An end, of whatever progress, after the begin of an index progress. */
  predicate SomeEndAfterIndexBegin(log: Log) {
    log.Then? && (SomeEndAfterIndexBegin(log.before) || (IsEnd(log.last) && SomeIndexBegin(log.before)))
  }

  /** An index progress with this token has begun. */
  predicate BegunAsIndex(log: Log, token: string) {
    log.Then? && ((IsIndexBegin(log.last) && log.last.token == token) || BegunAsIndex(log.before, token))
  }

  /** An index progress itself has ended: an end has arrived with the token of one that
      had begun. */
  predicate IndexEnded(log: Log) {
    log.Then? && (IndexEnded(log.before) || (IsEnd(log.last) && BegunAsIndex(log.before, log.last.token)))
  }

  /** After an index progress had begun, an end has arrived with the token of no index
      progress begun so far. */
  predicate OtherEnded(log: Log) {
    log.Then? && (OtherEnded(log.before)
                  || (IsEnd(log.last) && SomeIndexBegin(log.before) && !BegunAsIndex(log.before, log.last.token)))
  }

  /** The two indexing flags of Client. */
  class Tracker {
    var idxBegan: bool
    var idxEnded: bool
    ghost var log: Log

    constructor ()
      ensures Valid() && log == Empty
    {
      idxBegan, idxEnded, log := false, false, Empty;
    }

    ghost predicate Valid()
      reads this
    {
      Flags(idxBegan, idxEnded) == FlagsAfter(log)
    }

    method TrackProgress(p: Progress)
      requires Valid()
      modifies this
      ensures Valid() && log == Then(old(log), p)
      ensures (old(idxBegan) ==> idxBegan) && (old(idxEnded) ==> idxEnded)
    {
      if p.kind == "begin" {
        if Contains(Lower(p.title), "index") {
          idxBegan := true;
        }
      } else if p.kind == "end" {
        if idxBegan {
          idxEnded := true;
        }
      }
      log := Then(log, p);
    }
  }

  /** What the flags mean: began, that an index progress has begun; ended, that after
      that some progress has ended, not necessarily the index's. */
  lemma {:induction false} FlagsMean(log: Log)
    ensures FlagsAfter(log).began <==> SomeIndexBegin(log)
    ensures FlagsAfter(log).ended <==> SomeEndAfterIndexBegin(log)
  {
    if log.Then? { FlagsMean(log.before); }
  }

  /** Ended implies began. */
  lemma {:induction false} EndedImpliesBegan(log: Log)
    ensures FlagsAfter(log).ended ==> FlagsAfter(log).began
  {
    if log.Then? { EndedImpliesBegan(log.before); }
  }

  predicate Extends(later: Log, earlier: Log) {
    later == earlier || (later.Then? && Extends(later.before, earlier))
  }

  /** Neither flag is ever reset. */
  lemma {:induction false} FlagsStay(earlier: Log, later: Log)
    requires Extends(later, earlier)
    ensures FlagsAfter(earlier).began ==> FlagsAfter(later).began
    ensures FlagsAfter(earlier).ended ==> FlagsAfter(later).ended
  {
    if later != earlier { FlagsStay(earlier, later.before); }
  }

  // ---- WaitIndex ----

  const POLL := 200

  /** What poll i sees: the clock at the deadline check, the notifications received when
      it takes the lock, the clock at the baseline check. */
  datatype Poll = Poll(now: int, log: Log, later: int)

  /** Any behaviour of clock and server: time passes, a sleep takes at least 200 ms,
      notifications only arrive. */
  ghost predicate Schedule(start: int, polls: nat -> Poll) {
    && start <= polls(0).now
    && (forall i: nat :: polls(i).now <= polls(i).later)
    && (forall i: nat, j: nat {:trigger polls(i), polls(j)} :: j == i + 1 ==> polls(i).later + POLL <= polls(j).now)
    && (forall i: nat, j: nat {:trigger polls(i), polls(j)} :: j == i + 1 ==> Extends(polls(j).log, polls(i).log))
  }

  datatype Reason = Indexed | Baseline | Deadline

  ghost predicate Done(p: Poll) {
    FlagsAfter(p.log).began && FlagsAfter(p.log).ended
  }

  ghost predicate Settled(p: Poll, start: int, baseline: int) {
    !FlagsAfter(p.log).began && p.later - start >= baseline
  }

  /** WaitIndex; `n` is the number of polls made. */
  method WaitIndex(start: int, max: int, baseline: int, polls: nat -> Poll) returns (n: nat, why: Reason)
    requires Schedule(start, polls)
    ensures forall i: nat :: i < n - 1 ==>
              polls(i).now < start + max && !Done(polls(i)) && !Settled(polls(i), start, baseline)
    ensures why == Indexed ==> n > 0 && polls(n - 1).now < start + max && Done(polls(n - 1))
    ensures why == Baseline ==> n > 0 && polls(n - 1).now < start + max && Settled(polls(n - 1), start, baseline)
    ensures why == Deadline ==> polls(n).now >= start + max
    ensures n == 0 || POLL * (n - 1) < max
  {
    n := 0;
    while polls(n).now < start + max
      invariant forall i: nat :: i < n ==>
                  polls(i).now < start + max && !Done(polls(i)) && !Settled(polls(i), start, baseline)
      invariant polls(n).now >= start + POLL * n
      invariant n == 0 || POLL * (n - 1) < max
      decreases max - POLL * n
    {
      var flags := FlagsAfter(polls(n).log);
      if flags.began && flags.ended {
        return n + 1, Indexed;
      }
      if !flags.began && polls(n).later - start >= baseline {
        return n + 1, Baseline;
      }
      assert polls(n).later + POLL <= polls(n + 1).now;
      assert POLL * n < max;
      n := n + 1;
    }
    return n, Deadline;
  }

  /** It returns before its deadline only after an index progress has begun and a
      progress has ended since, or while none has begun and the baseline has passed; and
      it polls at most max / 200 ms times, rounded up. */
  lemma WaitIsSound(start: int, max: int, baseline: int, polls: nat -> Poll, n: nat, why: Reason)
    requires why == Indexed ==> n > 0 && Done(polls(n - 1))
    requires why == Baseline ==> n > 0 && Settled(polls(n - 1), start, baseline)
    requires n == 0 || 200 * (n - 1) < max
    ensures why == Indexed ==> SomeEndAfterIndexBegin(polls(n - 1).log)
    ensures why == Indexed ==> IndexEnded(polls(n - 1).log) || OtherEnded(polls(n - 1).log)
    ensures why == Baseline ==> !SomeIndexBegin(polls(n - 1).log) && polls(n - 1).later >= start + baseline
    ensures max > 0 ==> n <= (max + 199) / 200
    ensures max <= 0 ==> n == 0
  {
    if n > 0 {
      FlagsMean(polls(n - 1).log);
      EitherEnded(polls(n - 1).log);
    }
  }

  lemma {:induction false} BegunIsSome(log: Log, token: string)
    requires BegunAsIndex(log, token)
    ensures SomeIndexBegin(log)
  {
    if !IsIndexBegin(log.last) { BegunIsSome(log.before, token); }
  }

  lemma {:induction false} EitherEnded(log: Log)
    ensures SomeEndAfterIndexBegin(log) <==> IndexEnded(log) || OtherEnded(log)
  {
    if log.Then? {
      EitherEnded(log.before);
      if IsEnd(log.last) && BegunAsIndex(log.before, log.last.token) {
        BegunIsSome(log.before, log.last.token);
      }
    }
  }

  /** When the flag is wrong, exactly: `ended` differs from "an index progress has ended"
      if and only if the end of another progress has arrived after the begin of an index
      progress, and no index progress has ended yet. */
  lemma {:induction false} EndedWrongExactlyWhen(log: Log)
    ensures FlagsAfter(log).ended != IndexEnded(log) <==> OtherEnded(log) && !IndexEnded(log)
    ensures IndexEnded(log) ==> FlagsAfter(log).ended
  {
    FlagsMean(log);
    EitherEnded(log);
  }

  /** The end of any other progress makes the index look ready. */
  lemma {:induction false} OtherEndCounts(log: Log, token: string)
    requires SomeIndexBegin(log) && !IndexEnded(log) && !BegunAsIndex(log, token)
    ensures var later := Then(log, Progress(token, "end", ""));
            FlagsAfter(later).ended && !IndexEnded(later)
  {
    FlagsMean(Then(log, Progress(token, "end", "")));
  }

  /** That does happen: the indexing has begun, a file is parsed meanwhile, and the end of
      the parsing makes the index look ready. */
  lemma {:induction false} UnrelatedEndCounts()
    ensures var log := Then(Then(Then(Empty, Progress("index", "begin", "indexing")),
                                 Progress("parse", "begin", "parsing")), Progress("parse", "end", ""));
            FlagsAfter(log).ended && !IndexEnded(log)
  {
    hide Contains, Lower;
    var first := Then(Empty, Progress("index", "begin", "indexing"));
    var second := Then(first, Progress("parse", "begin", "parsing"));
    Titles();
    assert SomeIndexBegin(first) && SomeIndexBegin(second);
    assert "parse"[0] != "index"[0];
    assert !BegunAsIndex(Empty, "parse") && !BegunAsIndex(first, "parse") && !BegunAsIndex(second, "parse");
    OtherEndCounts(second, "parse");
  }

  lemma {:induction false} Titles()
    ensures Contains(Lower("indexing"), "index") && !Contains(Lower("parsing"), "index")
  {
    assert Lower("indexing") == "indexing" && "index" <= "indexing";
    assert Lower("parsing") == "parsing";
    NoIndexIn("parsing");
  }

  lemma {:induction false} NoIndexIn(s: string)
    requires 'x' !in s
    ensures !Contains(s, "index")
  {
    assert "index"[4] == 'x';
    if s != "" { NoIndexIn(s[1..]); }
  }
}
