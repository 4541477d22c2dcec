/** The input filter of one digital channel over a timed run. Times are nanoseconds of a
    monotonic clock; delays are milliseconds, compared after `duration_cast`. */
module Debounce {
  const NS_PER_MS := 1_000_000

  /** What a channel remembers: the raw level, the level it shows, when the raw level last changed. */
  datatype Input = Input(raw: bool, shown: bool, since: int)

  datatype Event = Drive(level: bool, at: int) | Sample(at: int)

  /** `duration_cast<milliseconds>(now - since).count()`, which truncates toward zero. */
  function ElapsedMs(now: int, since: int): int {
    if now >= since then (now - since) / NS_PER_MS else -((since - now) / NS_PER_MS)
  }

  /** Truncated to whole milliseconds, a time has lasted `d` of them exactly from a million nanoseconds each on. */
  lemma Lasted(now: int, since: int, d: nat)
    requires d > 0
    ensures ElapsedMs(now, since) >= d <==> now - since >= 1_000_000 * d
  {}

  function Step(x: Input, e: Event, delay: nat): Input {
    match e
    case Drive(level, at) => if x.raw != level then Input(level, x.shown, at) else x
    case Sample(at) =>
      if x.shown != x.raw && ElapsedMs(at, x.since) >= delay then x.(shown := x.raw) else x
  }

  function Run(x: Input, es: seq<Event>, delay: nat): Input {
    if es == [] then x else Step(Run(x, es[..|es| - 1], delay), es[|es| - 1], delay)
  }

  /** The clock never runs backwards, nor behind the last change the channel remembers. */
  predicate Ordered(x: Input, es: seq<Event>) {
    && (forall k :: 0 <= k < |es| ==> x.since <= es[k].at)
    && (forall j, k :: 0 <= j < k < |es| ==> es[j].at <= es[k].at)
  }

  /** The channel after the first `k` events. */
  function After(x: Input, es: seq<Event>, k: nat, delay: nat): Input
    requires k <= |es|
  {
    Run(x, es[..k], delay)
  }

  /** The raw level was the same at every moment of the `delay` before event `k`: before each
      event of that window, and at its end. */
  predicate Held(x: Input, es: seq<Event>, k: nat, delay: nat)
    requires k < |es|
  {
    forall j {:trigger es[j]} :: 0 <= j < k && es[j].at > es[k].at - delay * 1_000_000 ==>
      After(x, es, j, delay).raw == After(x, es, k, delay).raw
  }

  lemma AfterStep(x: Input, es: seq<Event>, k: nat, delay: nat)
    requires k < |es|
    ensures After(x, es, k + 1, delay) == Step(After(x, es, k, delay), es[k], delay)
  {
    assert es[..k + 1][..k] == es[..k];
  }

  /** A raw level differing from an earlier one was set no earlier than the event after it. */
  lemma {:induction false} ChangedSince(x: Input, es: seq<Event>, j: nat, k: nat, delay: nat)
    requires j <= k <= |es| && Ordered(x, es)
    requires After(x, es, j, delay).raw != After(x, es, k, delay).raw
    ensures j < k && After(x, es, k, delay).since >= es[j].at
    decreases k
  {
    AfterStep(x, es, k - 1, delay);
    if After(x, es, j, delay).raw != After(x, es, k - 1, delay).raw {
      ChangedSince(x, es, j, k - 1, delay);
    }
  }

  /** `since` is the initial one or the time of an event that changed the level to the present one. */
  lemma {:induction false} LastChange(x: Input, es: seq<Event>, k: nat, delay: nat) returns (p: int)
    requires k <= |es|
    ensures p < k
    ensures p < 0 ==> After(x, es, k, delay).since == x.since && After(x, es, k, delay).raw == x.raw
    ensures p >= 0 ==>
              && es[p] == Drive(After(x, es, k, delay).raw, After(x, es, k, delay).since)
              && After(x, es, p, delay).raw != After(x, es, k, delay).raw
    ensures forall q :: p < q < k && q >= 0 && es[q].Drive? ==> es[q].level == After(x, es, k, delay).raw
    decreases k
  {
    if k == 0 {
      p := -1;
    } else {
      AfterStep(x, es, k - 1, delay);
      if After(x, es, k, delay).raw != After(x, es, k - 1, delay).raw {
        p := k - 1;
      } else {
        p := LastChange(x, es, k - 1, delay);
      }
    }
  }

  /** The filter is exact: a sample that disagrees with the raw level adopts it if and only
      if the raw level has been held for the whole delay. */
  lemma {:induction false} SampleAdoptsExactlyHeldLevels(x: Input, es: seq<Event>, k: nat, delay: nat)
    requires delay > 0 && k < |es| && es[k].Sample? && Ordered(x, es)
    ensures var before, after := After(x, es, k, delay), After(x, es, k + 1, delay);
            before.shown != before.raw ==>
            (after.shown == before.raw <==> es[k].at - x.since >= delay * 1_000_000 && Held(x, es, k, delay))
    ensures After(x, es, k + 1, delay).shown in {After(x, es, k, delay).shown, After(x, es, k, delay).raw}
  {
    var before := After(x, es, k, delay);
    AfterStep(x, es, k, delay);
    var p := LastChange(x, es, k, delay);
    forall j | 0 <= j < k && After(x, es, j, delay).raw != before.raw
      ensures before.since >= es[j].at
    {
      ChangedSince(x, es, j, k, delay);
    }
  }

  /** Driving a channel never changes what it shows. */
  lemma DriveIsNotSeen(x: Input, es: seq<Event>, k: nat, delay: nat)
    requires k < |es| && es[k].Drive?
    ensures After(x, es, k + 1, delay).shown == After(x, es, k, delay).shown
  {
    AfterStep(x, es, k, delay);
  }

  /** Over every timed run the level shown changes only when the channel is sampled, and then to a raw level held
      for the whole delay, the time before the run included. */
  lemma OnlyHeldLevelsAreShown(x: Input, es: seq<Event>, k: nat, delay: nat)
    requires delay > 0 && k < |es| && Ordered(x, es)
    ensures After(x, es, k + 1, delay).shown != After(x, es, k, delay).shown ==>
              && es[k].Sample?
              && After(x, es, k + 1, delay).shown == After(x, es, k, delay).raw
              && es[k].at - x.since >= delay * 1_000_000 && Held(x, es, k, delay)
  {
    if es[k].Drive? {
      DriveIsNotSeen(x, es, k, delay);
    } else {
      SampleAdoptsExactlyHeldLevels(x, es, k, delay);
    }
  }

  /** No excursion away from `level` outlasts the delay: by each sample at least the delay after
      the start of one, the channel has been driven back. */
  predicate OnlyShortExcursions(es: seq<Event>, level: bool, delay: nat) {
    forall p, s {:trigger es[p], es[s]} ::
      0 <= p < s < |es| && es[p].Drive? && es[p].level != level && es[s].Sample?
      && es[s].at - es[p].at >= delay * 1_000_000
      ==> exists q :: p < q < s && es[q].Drive? && es[q].level == level
  }

  /** Glitch filter: from a settled channel, however many pulses shorter than the delay occur,
      and wherever it is sampled, the level shown never moves. */
  lemma {:induction false} ShortPulsesAreNeverSeen(x: Input, es: seq<Event>, delay: nat, k: nat)
    requires delay > 0 && k <= |es| && Ordered(x, es)
    requires x.raw == x.shown && OnlyShortExcursions(es, x.shown, delay)
    ensures After(x, es, k, delay).shown == x.shown
    decreases k
  {
    if k > 0 {
      ShortPulsesAreNeverSeen(x, es, delay, k - 1);
      AfterStep(x, es, k - 1, delay);
      var before := After(x, es, k - 1, delay);
      if es[k - 1].Sample? && before.raw != x.shown {
        var p := LastChange(x, es, k - 1, delay);
        assert es[p].at == before.since;
      }
    }
  }
}
