/**
 The copy-elision buffer of tensorrt_llm/_device_copy.py. Host values are compared by an element
 equality and converted to device values by a cast; neither has to be identity, so that values such
 as 0.0 and -0.0 may compare equal, and a value may differ from itself.
 */
module DeviceCopy {
  import opened Sequences

  /** A host tensor: its element type, its shape and its elements in order. */
  datatype Host<H> = Host(dtype: nat, shape: seq<nat>, flat: seq<H>)

  datatype Values<H> = Values(dtype: nat, flat: seq<H>)

  /** Element equality on the host, conversion, and when two device values count as the same. */
  datatype Semantics<!H, !D> = Semantics(eq: (H, H) -> bool, cast: (nat, H) -> D, same: (D, D) -> bool)

  ghost predicate ValidSemantics<H(!new), D(!new)>(sem: Semantics<H, D>) {
    && (forall x :: sem.same(x, x))
    && (forall x, y | sem.same(x, y) :: sem.same(y, x))
    && (forall x, y, z | sem.same(x, y) && sem.same(y, z) :: sem.same(x, z))
    && forall t, a, b | sem.eq(a, b) :: sem.same(sem.cast(t, a), sem.cast(t, b))
  }

  /** All elements compare equal. */
  predicate AllEqual<H>(eq: (H, H) -> bool, a: seq<H>, b: seq<H>) {
    |a| == |b| && forall i | 0 <= i < |a| :: eq(a[i], b[i])
  }

  function CastAll<H, D>(sem: Semantics<H, D>, host: Host<H>): (r: seq<D>)
    ensures |r| == |host.flat| && forall i | 0 <= i < |r| :: r[i] == sem.cast(host.dtype, host.flat[i])
  {
    seq(|host.flat|, i requires 0 <= i < |host.flat| => sem.cast(host.dtype, host.flat[i]))
  }

  /** The sequence with its leading elements replaced, as many as there are places for. */
  function Overlay<T>(below: seq<T>, top: seq<T>): (r: seq<T>)
    ensures |r| == |below|
    ensures forall i | 0 <= i < |r| :: r[i] == if i < |top| then top[i] else below[i]
  {
    if |top| <= |below| then top + below[|top|..] else top[..|below|]
  }

  /** A copy fits unless it is longer than the buffer; a single element also fits an empty one, by broadcast. */
  predicate Fits(count: nat, room: nat) { count <= room || (count == 1 && room == 0) }

  // ---------------------------------------------------------------------------
  // The record
  // ---------------------------------------------------------------------------

  /** What the buffer remembers: values, the last submitted shape, and the key of the copy. */
  datatype Record<H> = Record(last: Option<Values<H>>, shape: Option<seq<nat>>, key: Option<string>)

  function Forgotten<H>(): Record<H> { Record(None, None, None) }

  predicate Matches<H>(eq: (H, H) -> bool, r: Record<H>, host: Host<H>, key: Option<string>, exact: bool) {
    && r.last.Some?
    && key == r.key
    && r.last.value.dtype == host.dtype
    && (!exact || r.shape == Some(host.shape))
    && |r.last.value.flat| >= |host.flat|
    && AllEqual(eq, r.last.value.flat[..|host.flat|], host.flat)
  }

  /** The record is kept and overlaid rather than replaced. */
  predicate KeepsTail<H>(r: Record<H>, host: Host<H>, key: Option<string>) {
    r.last.Some? && key == r.key && r.last.value.dtype == host.dtype && |r.last.value.flat| > |host.flat|
  }

  function Recorded<H>(r: Record<H>, host: Host<H>, key: Option<string>): Record<H> {
    var flat := if KeepsTail(r, host, key) then Overlay(r.last.value.flat, host.flat) else host.flat;
    Record(Some(Values(host.dtype, flat)), Some(host.shape), key)
  }

  /**
   What the record of a copy matches. With `exact`, the same key, type, shape and values. Without it,
   also shorter tensors of any shape that agree with the leading values.
   */
  lemma MatchesExactly<H>(eq: (H, H) -> bool, r: Record<H>, copied: Host<H>, copyKey: Option<string>, host: Host<H>,
                          key: Option<string>)
    requires host.shape == copied.shape ==> |host.flat| == |copied.flat|
    ensures Matches(eq, Recorded(r, copied, copyKey), host, key, true) <==>
              && key == copyKey && host.dtype == copied.dtype && host.shape == copied.shape
              && AllEqual(eq, copied.flat, host.flat)
    ensures |host.flat| <= |copied.flat| ==>
              (Matches(eq, Recorded(r, copied, copyKey), host, key, false) <==>
                 && key == copyKey && host.dtype == copied.dtype
                 && AllEqual(eq, copied.flat[..|host.flat|], host.flat))
    ensures !Matches(eq, Forgotten(), host, key, false)
  {
    var flat := Recorded(r, copied, copyKey).last.value.flat;
    assert flat[..|copied.flat|] == copied.flat;
    if |host.flat| <= |copied.flat| { assert flat[..|host.flat|] == copied.flat[..|host.flat|]; }
  }

  class DeviceCopyBuffer<H, D> {
    const sem: Semantics<H, D>
    const tensor: array<D>
    var last: Option<Values<H>>
    var shape: Option<seq<nat>>
    var key: Option<string>

    function State(): Record<H>
      reads this
    {
      Record(last, shape, key)
    }

    constructor (tensor: array<D>, sem: Semantics<H, D>)
      ensures this.tensor == tensor && this.sem == sem && State() == Forgotten()
    {
      this.tensor, this.sem := tensor, sem;
      last, shape, key := None, None, None;
    }

    method Invalidate()
      modifies this`last, this`shape, this`key
      ensures State() == Forgotten()
    {
      last, shape, key := None, None, None;
    }

    method RecordCopy(host: Host<H>, copyKey: Option<string>)
      modifies this`last, this`shape, this`key
      ensures State() == Recorded(old(State()), host, copyKey)
    {
      if last.None? || copyKey != key || last.value.dtype != host.dtype || |last.value.flat| <= |host.flat| {
        last := Some(Values(host.dtype, host.flat));
      } else {
        last := Some(Values(host.dtype, host.flat + last.value.flat[|host.flat|..]));
      }
      shape := Some(host.shape);
      key := copyKey;
    }

    /** Copy the host values unless the record says they are there; false when they do not fit. */
    method Update(host: Host<H>, force: bool) returns (ok: bool)
      modifies this`last, this`shape, this`key, tensor
      ensures !force && Matches(sem.eq, old(State()), host, None, false) ==>
                ok && State() == old(State()) && tensor[..] == old(tensor[..])
      ensures (force || !Matches(sem.eq, old(State()), host, None, false)) && !Fits(|host.flat|, tensor.Length) ==>
                !ok && State() == old(State()) && tensor[..] == old(tensor[..])
      ensures (force || !Matches(sem.eq, old(State()), host, None, false)) && Fits(|host.flat|, tensor.Length) ==>
                && ok && State() == Recorded(old(State()), host, None)
                && tensor[..] == Overlay(old(tensor[..]), CastAll(sem, host))
      ensures !ok ==> |host.flat| > tensor.Length && !(|host.flat| == 1 && tensor.Length == 0)
      ensures ok && (force || !Matches(sem.eq, old(State()), host, None, false)) ==>
                |host.flat| <= tensor.Length || (|host.flat| == 1 && tensor.Length == 0)
      ensures (tensor[..], State()) == Submitted(sem, old(tensor[..]), old(State()), host, force)
    {
      if !force && Matches(sem.eq, State(), host, None, false) { return true; }
      if !Fits(|host.flat|, tensor.Length) { return false; }
      var staging := CastAll(sem, host);
      var n := if |staging| <= tensor.Length then |staging| else tensor.Length;
      for i := 0 to n
        invariant forall k | 0 <= k < i :: tensor[k] == staging[k]
        invariant forall k | i <= k < tensor.Length :: tensor[k] == old(tensor[k])
        invariant State() == old(State())
      {
        tensor[i] := staging[i];
      }
      RecordCopy(host, None);
      return true;
    }
  }

  // ---------------------------------------------------------------------------
  // Runs, next to a buffer that always copies
  // ---------------------------------------------------------------------------

  /**
   The device buffer, its record, the buffer that always copies, and the places that something else
   has written since the record was last brought up to date.
   */
  datatype World<H, D> = World(dev: seq<D>, record: Record<H>, plain: seq<D>, stray: set<int>)

  datatype Event<H, D> =
    | Update(host: Host<H>, force: bool)
    | RecordCall(host: Host<H>, key: Option<string>)
    | Invalidate
    | Outside(writes: map<int, D>)

  /** Both buffers after a write by something else. */
  function Written<D>(buffer: seq<D>, writes: map<int, D>): (r: seq<D>)
    ensures |r| == |buffer|
    ensures forall i | 0 <= i < |r| :: r[i] == if i in writes then writes[i] else buffer[i]
  {
    seq(|buffer|, i requires 0 <= i < |buffer| => if i in writes then writes[i] else buffer[i])
  }

  /** The update copies or fails; otherwise it skips. */
  predicate Skips<H, D>(sem: Semantics<H, D>, r: Record<H>, host: Host<H>, force: bool) {
    !force && Matches(sem.eq, r, host, None, false)
  }

  /** The device buffer and the record after an update. */
  function Submitted<H, D>(sem: Semantics<H, D>, dev: seq<D>, r: Record<H>, host: Host<H>, force: bool)
    : (seq<D>, Record<H>)
  {
    if Skips(sem, r, host, force) || !Fits(|host.flat|, |dev|) then (dev, r)
    else (Overlay(dev, CastAll(sem, host)), Recorded(r, host, None))
  }

  function AfterUpdate<H, D>(sem: Semantics<H, D>, w: World<H, D>, host: Host<H>, force: bool): World<H, D> {
    var plain := if Fits(|host.flat|, |w.plain|) then Overlay(w.plain, CastAll(sem, host)) else w.plain;
    var (dev, record) := Submitted(sem, w.dev, w.record, host, force);
    w.(dev := dev, record := record, plain := plain)
  }

  function Apply<H, D>(sem: Semantics<H, D>, w: World<H, D>, e: Event<H, D>): World<H, D> {
    match e
    case Update(host, force) => AfterUpdate(sem, w, host, force)
    case RecordCall(host, key) => w.(record := Recorded(w.record, host, key), stray := {})
    case Invalidate => w.(record := Forgotten(), stray := {})
    case Outside(writes) =>
      w.(dev := Written(w.dev, writes), plain := Written(w.plain, writes), stray := w.stray + writes.Keys)
  }

  /** The buffer starts with the given contents and no record. */
  function Start<H, D>(dev: seq<D>): World<H, D> { World(dev, Forgotten(), dev, {}) }

  function Run<H, D>(sem: Semantics<H, D>, dev: seq<D>, events: seq<Event<H, D>>): World<H, D> {
    if events == [] then Start(dev) else Apply(sem, Run(sem, dev, events[..|events| - 1]), events[|events| - 1])
  }

  /** The device holds, place by place, what the host values convert to. */
  ghost predicate Holds<H, D>(sem: Semantics<H, D>, dev: seq<D>, host: Host<H>) {
    Fits(|host.flat|, |dev|) &&
    forall i | 0 <= i < |host.flat| && i < |dev| :: sem.same(dev[i], sem.cast(host.dtype, host.flat[i]))
  }

  /**
   The callers' side: every outside write is recorded or invalidated before the next update. A
   record without key describes values the device holds, and if it keeps the tail of the record
   before it, nothing was written there.
   */
  ghost predicate Disciplined<H, D>(sem: Semantics<H, D>, w: World<H, D>, e: Event<H, D>) {
    match e
    case Update(_, _) => w.stray == {}
    case RecordCall(host, key) =>
      key == None ==>
        && Holds(sem, w.dev, host)
        && (KeepsTail(w.record, host, key) ==> forall i | i in w.stray :: i < |host.flat|)
    case Invalidate => true
    case Outside(_) => true
  }

  ghost predicate DisciplinedRun<H, D>(sem: Semantics<H, D>, dev: seq<D>, events: seq<Event<H, D>>) {
    forall k | 0 <= k < |events| :: DisciplinedAt(sem, dev, events, k)
  }

  ghost predicate DisciplinedAt<H, D>(sem: Semantics<H, D>, dev: seq<D>, events: seq<Event<H, D>>, k: nat)
    requires k < |events|
  {
    Disciplined(sem, Run(sem, dev, events[..k]), events[k])
  }

  /** Place by place, both buffers hold the same. */
  ghost predicate Agree<H, D>(sem: Semantics<H, D>, a: seq<D>, b: seq<D>) {
    |a| == |b| && forall i | 0 <= i < |a| :: sem.same(a[i], b[i])
  }

  /** A record without key tells the truth about every place that was not written since. */
  ghost predicate RecordTrue<H, D>(sem: Semantics<H, D>, w: World<H, D>) {
    w.record.last.Some? && w.record.key == None ==>
      var v := w.record.last.value;
      && Fits(|v.flat|, |w.dev|)
      && forall i | 0 <= i < |v.flat| && i < |w.dev| && i !in w.stray ::
           sem.same(w.dev[i], sem.cast(v.dtype, v.flat[i]))
  }

  ghost predicate Invariant<H, D>(sem: Semantics<H, D>, w: World<H, D>) {
    Agree(sem, w.dev, w.plain) && RecordTrue(sem, w)
  }

  /** A skipped copy was not needed: it fits, and what it would write is there. */
  lemma SkippedIsHeld<H(!new), D(!new)>(sem: Semantics<H, D>, w: World<H, D>, host: Host<H>, force: bool)
    requires ValidSemantics(sem) && Invariant(sem, w) && w.stray == {} && Skips(sem, w.record, host, force)
    ensures Holds(sem, w.dev, host)
  {
    var v := w.record.last.value;
    forall i | 0 <= i < |host.flat| && i < |w.dev| ensures sem.same(w.dev[i], sem.cast(host.dtype, host.flat[i])) {
      assert sem.eq(v.flat[..|host.flat|][i], host.flat[i]);
      assert sem.same(w.dev[i], sem.cast(v.dtype, v.flat[i]));
    }
  }

  /** What an update leaves on the device is what always copying leaves. */
  lemma UpdateKeepsInvariant<H(!new), D(!new)>(sem: Semantics<H, D>, w: World<H, D>, host: Host<H>, force: bool)
    requires ValidSemantics(sem) && Invariant(sem, w) && w.stray == {}
    ensures Invariant(sem, AfterUpdate(sem, w, host, force))
  {
    if Skips(sem, w.record, host, force) { SkippedIsHeld(sem, w, host, force); }
  }

  lemma StepKeepsInvariant<H(!new), D(!new)>(sem: Semantics<H, D>, w: World<H, D>, e: Event<H, D>)
    requires ValidSemantics(sem) && Invariant(sem, w) && Disciplined(sem, w, e)
    ensures Invariant(sem, Apply(sem, w, e))
  {
    match e
    case Update(host, force) => UpdateKeepsInvariant(sem, w, host, force);
    case RecordCall(host, key) =>
    case Invalidate =>
    case Outside(writes) =>
  }

  lemma {:induction false} RunKeepsInvariant<H(!new), D(!new)>(
    sem: Semantics<H, D>, dev: seq<D>, events: seq<Event<H, D>>)
    requires ValidSemantics(sem) && DisciplinedRun(sem, dev, events)
    ensures Invariant(sem, Run(sem, dev, events))
    decreases |events|
  {
    if events != [] {
      var last := |events| - 1;
      var before := events[..last];
      forall k: nat | k < |before| ensures DisciplinedAt(sem, dev, before, k) {
        assert before[..k] == events[..k];
        assert DisciplinedAt(sem, dev, events, k);
      }
      RunKeepsInvariant(sem, dev, before);
      assert DisciplinedAt(sem, dev, events, last);
      StepKeepsInvariant(sem, Run(sem, dev, before), events[last]);
    }
  }

  /**
   After every disciplined run the buffer holds what it would hold had every update copied: up to
   values that count as the same, and exactly where only identical values do.
   */
  lemma ElisionIsInvisible<H(!new), D(!new)>(sem: Semantics<H, D>, dev: seq<D>, events: seq<Event<H, D>>)
    requires ValidSemantics(sem) && DisciplinedRun(sem, dev, events)
    ensures Agree(sem, Run(sem, dev, events).dev, Run(sem, dev, events).plain)
    ensures (forall x, y | sem.same(x, y) :: x == y) ==> Run(sem, dev, events).dev == Run(sem, dev, events).plain
  {
    RunKeepsInvariant(sem, dev, events);
  }

  /**
   What the discipline is for. An update after unrecorded writes still agrees with always copying
   if and only if it copies, or the writes left every place it should have copied to as it was.
   */
  lemma StrayWritesShowExactly<H(!new), D(!new)>(sem: Semantics<H, D>, w: World<H, D>, host: Host<H>, force: bool)
    requires ValidSemantics(sem) && Invariant(sem, w)
    ensures var w' := AfterUpdate(sem, w, host, force);
            Agree(sem, w'.dev, w'.plain) <==>
            (Skips(sem, w.record, host, force) ==>
               forall i | i in w.stray && 0 <= i < |host.flat| && i < |w.dev| ::
                 sem.same(w.dev[i], sem.cast(host.dtype, host.flat[i])))
  {
    var w' := AfterUpdate(sem, w, host, force);
    if Skips(sem, w.record, host, force) {
      var v := w.record.last.value;
      forall i | 0 <= i < |host.flat| && i < |w.dev|
        ensures w'.plain[i] == sem.cast(host.dtype, host.flat[i])
        ensures i !in w.stray ==> sem.same(w.dev[i], sem.cast(host.dtype, host.flat[i]))
      {
        assert sem.eq(v.flat[..|host.flat|][i], host.flat[i]);
        assert i !in w.stray ==> sem.same(w.dev[i], sem.cast(v.dtype, v.flat[i]));
      }
    }
  }

  /** Such a run: a value is copied, overwritten from outside, and submitted again. */
  lemma UnrecordedWriteIsMissed()
    ensures var sem := Semantics((a: int, b: int) => a == b, (t: nat, a: int) => a, (x: int, y: int) => x == y);
            var host := Host(0, [1], [5]);
            var w := Run(sem, [0], [Update(host, false), Outside(map[0 := 6]), Update(host, false)]);
            ValidSemantics(sem) && w.dev == [6] && w.plain == [5]
  {
    var sem := Semantics((a: int, b: int) => a == b, (t: nat, a: int) => a, (x: int, y: int) => x == y);
    var host := Host(0, [1], [5]);
    var events := [Update(host, false), Outside(map[0 := 6]), Update(host, false)];
    var zero: World<int, int> := Start([0]);
    assert CastAll(sem, host) == [5] && Overlay([0], [5]) == [5] && Written([5], map[0 := 6]) == [6]
           && Overlay([6], [5]) == [5];
    var one := AfterUpdate(sem, zero, host, false);
    assert one == World([5], Record(Some(Values(0, [5])), Some([1]), None), [5], {});
    assert host.flat == one.record.last.value.flat[..1];
    assert events[..2] == [events[0], events[1]] && events[..2][..1] == [events[0]] && [events[0]][..0] == [];
    assert Run(sem, [0], [events[0]]) == one;
    assert Run(sem, [0], events[..2]) == Apply(sem, one, events[1]);
  }
}
