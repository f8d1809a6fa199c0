/** Stepping and slewing the system clock (driver/clocks/sysclk_linux.go). Every step below
    is made under the lock of the clock, so calls and timers interleave as a sequence of
    them; frequencies are real numbers. */
module SlewClock {
  import opened GoInt
  import opened Options

  const NANOS: int := 1_000_000_000
  const MAX_UINT64: nat := 0xffff_ffff_ffff_ffff

  // An adjustment ends with the frequency afterFreq; slewFreq is the one it begins with.
  class Adjustment {
    const duration: int
    const afterFreq: real
    ghost const slewFreq: real

    constructor (duration: int, afterFreq: real, ghost slewFreq: real)
      ensures this.duration == duration && this.afterFreq == afterFreq && this.slewFreq == slewFreq
    {
      this.duration := duration;
      this.afterFreq := afterFreq;
      this.slewFreq := slewFreq;
    }
  }

  // What happened, by the end of the critical section. Fired: the timer of an adjustment.
  datatype Event = Stepped(offset: int) | Adjusted(adj: Adjustment) | Fired(timer: Adjustment)

  ghost function Newest(events: seq<Event>): Option<Adjustment> {
    if events == [] then None
    else if events[|events| - 1].Adjusted? then Some(events[|events| - 1].adj)
    else Newest(events[..|events| - 1])
  }

  // The newest adjustment is over: the clock was stepped since, or its own timer fired.
  ghost predicate IsOver(events: seq<Event>) {
    events != [] &&
    var before, e := events[..|events| - 1], events[|events| - 1];
    e.Stepped? || (e.Fired? && (IsOver(before) || Newest(before) == Some(e.timer)))
  }

  // The frequency of the clock, initially freq0.
  ghost function Frequency(events: seq<Event>, freq0: real): real {
    if Newest(events).None? then freq0
    else if IsOver(events) then Newest(events).value.afterFreq
    else Newest(events).value.slewFreq
  }

  ghost function Steps(events: seq<Event>): nat {
    if events == [] then 0
    else Steps(events[..|events| - 1]) + if events[|events| - 1].Stepped? then 1 else 0
  }

  // All offsets that were set at once.
  ghost function TotalOffset(events: seq<Event>): int {
    if events == [] then 0
    else TotalOffset(events[..|events| - 1])
         + if events[|events| - 1].Stepped? then events[|events| - 1].offset else 0
  }

  // The duration of an adjustment is cut to seconds, and at least one.
  function WholeSeconds(duration: int): (d: int)
    requires duration >= 0
    ensures d % NANOS == 0
    ensures if duration < NANOS then d == NANOS else d <= duration < d + NANOS
  {
    if Quo(duration, NANOS) * NANOS == 0 then NANOS else Quo(duration, NANOS) * NANOS
  }

  function Seconds(d: int): real {
    d as real / NANOS as real
  }

  class SystemClock {
    var epoch: nat
    var adjustment: Adjustment?

    // The kernel's clock: its frequency, and the offsets added to it.
    var frequency: real
    var offset: int

    ghost const freq0: real
    ghost var events: seq<Event>

    ghost predicate Valid()
      reads this
    {
      && epoch == Steps(events) <= MAX_UINT64
      && offset == TotalOffset(events)
      && frequency == Frequency(events, freq0)
      && (if adjustment != null then Newest(events).Some? && Newest(events).value == adjustment
          else Newest(events).None? || IsOver(events))
    }

    constructor (frequency: real)
      ensures Valid() && events == [] && freq0 == frequency
      ensures this.frequency == frequency && offset == 0 && epoch == 0 && adjustment == null
    {
      this.frequency := frequency;
      freq0 := frequency;
      epoch, adjustment, offset, events := 0, null, 0, [];
    }

    // Epoch overflow panics, after the clock was stepped.
    method Step(offset: int) returns (ok: bool)
      requires Valid()
      modifies this
      ensures ok <==> old(epoch) < MAX_UINT64
      ensures ok ==> Valid() && events == old(events) + [Stepped(offset)]
      ensures this.offset == old(this.offset) + offset && adjustment == null
      ensures frequency == if old(adjustment) == null then old(frequency) else old(adjustment).afterFreq
      ensures epoch == if ok then old(epoch) + 1 else old(epoch)
    {
      if adjustment != null {
        frequency := adjustment.afterFreq;
        adjustment := null;
      }
      this.offset := this.offset + offset;
      if epoch == MAX_UINT64 {
        return false;
      }
      epoch := epoch + 1;
      events := events + [Stepped(offset)];
      assert events[..|events| - 1] == old(events);
      ok := true;
    }

    // A negative duration panics. While the adjustment lasts, the clock gains the offset,
    // beside what it gains at the base frequency.
    method Adjust(offset: Duration, duration: Duration, base: real) returns (ok: bool, adj: Adjustment?)
      requires Valid()
      modifies this
      ensures ok <==> duration >= 0
      ensures ok ==> Valid() && adj != null && fresh(adj) && events == old(events) + [Adjusted(adj)]
      ensures ok ==> adj.afterFreq == base && adj.duration == WholeSeconds(duration)
      ensures ok ==> (adj.slewFreq - base) * adj.duration as real == offset as real
      ensures frequency == if ok then adj.slewFreq else old(frequency)
      ensures this.offset == old(this.offset) && epoch == old(epoch) && adjustment == adj
    {
      adj := null;
      if adjustment != null {
        adjustment := null;
      }
      if duration < 0 {
        return false, null;
      }
      var d := Quo(duration, NANOS) * NANOS;
      if d == 0 {
        d := NANOS;
      }
      frequency := base + Seconds(offset) / Seconds(d);
      adj := new Adjustment(d, base, frequency);
      SlewGains(base, offset as real, d as real, frequency);
      adjustment := adj;
      events := events + [Adjusted(adj)];
      assert events[..|events| - 1] == old(events);
      ok := true;
    }

    // The end of the timer goroutine of an adjustment.
    method Fire(adj: Adjustment)
      requires Valid()
      modifies this
      ensures Valid() && events == old(events) + [Fired(adj)]
      ensures frequency == if adj == old(adjustment) then adj.afterFreq else old(frequency)
      ensures offset == old(offset) && epoch == old(epoch) && adjustment == old(adjustment)
    {
      if adj == adjustment {
        frequency := adj.afterFreq;
      }
      events := events + [Fired(adj)];
      assert events[..|events| - 1] == old(events);
    }

    method Epoch() returns (e: nat)
      requires Valid()
      ensures e == epoch == Steps(events)
    {
      e := epoch;
    }
  }

  lemma SlewGains(base: real, offset: real, d: real, freq: real)
    requires d > 0.0 && freq == base + offset / NANOS as real / (d / NANOS as real)
    ensures (freq - base) * d == offset
  {
  }

  /* ---- Any interleaving ---- */

  ghost function Sum(offsets: seq<int>): int {
    if offsets == [] then 0 else offsets[0] + Sum(offsets[1..])
  }

  // The offsets of the steps among the events.
  ghost function StepOffsets(events: seq<Event>): seq<int> {
    if events == [] then []
    else (if events[0].Stepped? then [events[0].offset] else []) + StepOffsets(events[1..])
  }

  // More events add the offsets of the steps among them to the clock, and count those.
  lemma {:induction false} OffsetsAdd(events: seq<Event>, more: seq<Event>)
    ensures TotalOffset(events + more) == TotalOffset(events) + Sum(StepOffsets(more))
    ensures Steps(events + more) == Steps(events) + |StepOffsets(more)|
    decreases more
  {
    if more == [] {
      assert events + more == events;
    } else {
      var x, rest := events + [more[0]], StepOffsets(more[1..]);
      OneMoreEvent(events, more[0]);
      OffsetsAdd(x, more[1..]);
      assert x + more[1..] == events + more;
      assert StepOffsets(more) == (if more[0].Stepped? then [more[0].offset] else []) + rest;
      assert more[0].Stepped? ==> StepOffsets(more)[1..] == rest;
      assert !more[0].Stepped? ==> StepOffsets(more) == rest;
    }
  }

  lemma OneMoreEvent(events: seq<Event>, e: Event)
    ensures TotalOffset(events + [e]) == TotalOffset(events) + if e.Stepped? then e.offset else 0
    ensures Steps(events + [e]) == Steps(events) + if e.Stepped? then 1 else 0
  {
    assert (events + [e])[..|events|] == events;
  }

  ghost predicate NoAdjustment(events: seq<Event>) {
    forall k :: 0 <= k < |events| ==> !events[k].Adjusted?
  }

  // An adjustment that is over stays over until the next one, whatever timers fire.
  lemma {:induction false} OverStaysOver(events: seq<Event>, more: seq<Event>)
    requires IsOver(events) && NoAdjustment(more)
    ensures IsOver(events + more) && Newest(events + more) == Newest(events)
  {
    if more == [] {
      assert events + more == events;
    } else {
      var front := more[..|more| - 1];
      OverStaysOver(events, front);
      assert (events + more)[..|events + more| - 1] == events + front;
    }
  }

  // After an adjustment, the frequency is its base frequency exactly if its own timer fired
  // or the clock was stepped since; timers of other adjustments change nothing.
  lemma {:induction false} FrequencyAfter(events: seq<Event>, adj: Adjustment, more: seq<Event>, freq0: real)
    requires NoAdjustment(more)
    ensures var all := events + [Adjusted(adj)] + more;
      && Newest(all) == Some(adj)
      && (IsOver(all) <==> exists k :: 0 <= k < |more| && (more[k].Stepped? || more[k] == Fired(adj)))
      && Frequency(all, freq0) == if IsOver(all) then adj.afterFreq else adj.slewFreq
  {
    var x := events + [Adjusted(adj)];
    var all := x + more;
    if more == [] {
      assert all == x;
      assert !IsOver(x) && Newest(x) == Some(adj);
    } else {
      var front, e := more[..|more| - 1], more[|more| - 1];
      FrequencyAfter(events, adj, front, freq0);
      assert all[..|all| - 1] == x + front && all[|all| - 1] == e;
      assert forall k :: 0 <= k < |front| ==> front[k] == more[k];
      if e.Stepped? || e == Fired(adj) {
        assert more[|more| - 1].Stepped? || more[|more| - 1] == Fired(adj);
      }
    }
  }
}
