/** The dictionary-attack scene: a four-state progress machine over one
    file-static record. A periodic timer tick walks an index through the
    Keeloq key indices and then the Hitag2 indices, one per tick, and the
    run completes when the index reaches the combined table size. No key is
    ever tested against a device: the tick only counts and routes indices. */
module DictAttack {
  import opened Word32
  import opened Input

  datatype Status = Idle | Attacking | Success | Complete

  /** Length of the `found_key` text buffer. */
  const FoundKeyLen: nat := 32
  /** Frequency set on scene entry, in hertz. */
  const DefaultFrequency: u32 := 433920000
  /** Width of the progress bar's interior, in pixels. */
  const BarWidth: nat := 122
  /** A progress line is logged whenever the counter is a multiple of this. */
  const LogEvery: nat := 50

  /** The scene's static storage: the `DictAttackState` record together with
      the separate `attack_start_tick` static. */
  datatype DictState = DictState(
    status: Status,
    frequency: u32,
    keysTried: u32,
    totalKeys: u32,
    attackTimeMs: u32,
    foundKey: seq<char>,
    success: bool,
    startTick: u32)

  function EmptyKey(): (k: seq<char>)
    ensures |k| == FoundKeyLen && forall i :: 0 <= i < |k| ==> k[i] == '\0'
  {
    seq(FoundKeyLen, _ => '\0')
  }

  /** Static storage before the scene is first entered is all zero. */
  function Initial(): DictState {
    DictState(Idle, 0, 0, 0, 0, EmptyKey(), false, 0)
  }

  // ---------------------------------------------------------------------
  // Key routing

  /** What a tick selects for a given counter value: a Keeloq table entry
      (the tick reads it) or a Hitag2 index (the tick only logs it). */
  datatype KeyTrial = Keeloq(index: nat) | Hitag2(index: nat) | NoTrial

  /** Routes a counter value: the first `k` values address the Keeloq table,
      the next `h` give a Hitag2 index, and anything beyond selects nothing. */
  function Route(tried: nat, k: nat, h: nat): (t: KeyTrial)
    ensures t.Keeloq? <==> tried < k
    ensures t.Hitag2? <==> k <= tried < k + h
    ensures t.Keeloq? ==> t.index == tried && t.index < k
    ensures t.Hitag2? ==> t.index + k == tried && t.index < h
  {
    if tried < k then Keeloq(tried)
    else if tried < k + h then Hitag2(tried - k)
    else NoTrial
  }

  /** The whole key catalogue in trial order: every Keeloq entry, then every
      Hitag2 index. */
  function Catalog(k: nat, h: nat): (c: seq<KeyTrial>)
    ensures |c| == k + h
  {
    seq(k, (i: nat) => Keeloq(i)) + seq(h, (j: nat) => Hitag2(j))
  }

  // ---------------------------------------------------------------------
  // Progress arithmetic, as the draw callback and the progress log do it

  /** `(keys_tried * 100) / total_keys` in 32-bit arithmetic. */
  function Percent(tried: u32, total: u32): u32
    requires total > 0
  {
    Mul(tried, 100) / total
  }

  /** The progress bar's width: the 32-bit quotient stored into a `uint8_t`
      and then clamped to the bar. */
  function ProgressWidth(tried: u32, total: u32): (w: nat)
    requires total > 0
    ensures w <= BarWidth
  {
    var p := Truncate8(Mul(tried, BarWidth) / total);
    if p > BarWidth then BarWidth else p
  }

  // ---------------------------------------------------------------------
  // Transitions of the static storage

  /** Scene entry: the record is zeroed, then made Idle at the default
      frequency. The start tick is a separate static and is kept. */
  function Entered(s: DictState): DictState {
    DictState(Idle, DefaultFrequency, 0, 0, 0, EmptyKey(), false, s.startTick)
  }

  /** An OK press: starts a run from Idle, stops a running one, and does
      nothing once a run has finished. */
  function OkPressed(s: DictState, k: u32, h: u32, now: u32): DictState {
    match s.status
    case Idle =>
      s.(status := Attacking, keysTried := 0, totalKeys := Add(k, h),
         attackTimeMs := 0, success := false, startTick := now)
    case Attacking => s.(status := Complete)
    case _ => s
  }

  /** One timer tick at time `now`. */
  function Ticked(s: DictState, now: u32): DictState {
    if s.status != Attacking then s
    else
      var tried := Add(s.keysTried, 1);
      s.(attackTimeMs := Sub(now, s.startTick),
         keysTried := tried,
         status := if tried >= s.totalKeys then Complete else Attacking)
  }

  /** The Keeloq entry or Hitag2 index a tick selects, if any. */
  function TickTrial(s: DictState, k: u32, h: u32): KeyTrial {
    if s.status == Attacking then Route(s.keysTried, k, h) else NoTrial
  }

  /** The percent a tick logs, if it logs one. */
  function TickLog(s: DictState): Option<u32> {
    if s.status != Attacking then None
    else
      var tried := Add(s.keysTried, 1);
      if tried % LogEvery == 0 && s.totalKeys > 0 then Some(Percent(tried, s.totalKeys)) else None
  }

  /** The scene manager's Back event: stops a running attack. */
  function BackedOut(s: DictState): DictState {
    if s.status == Attacking then s.(status := Complete) else s
  }

  /** Scene exit. */
  function Exited(s: DictState): DictState {
    s.(status := Idle)
  }

  /** Only a short OK press changes the state; every other input is absorbed. */
  function AfterInput(s: DictState, ev: InputEvent, k: u32, h: u32, now: u32): DictState {
    if ev.kind == Short && ev.key == Ok then OkPressed(s, k, h, now) else s
  }

  /** The input callback hands a short Back press on to the scene manager and
      claims every other event. */
  function InputConsumed(ev: InputEvent): bool {
    !(ev.kind == Short && ev.key == Back)
  }

  function AfterSceneEvent(s: DictState, e: SceneEvent): DictState {
    if e.SceneBack? then BackedOut(s) else s
  }

  /** Only custom events are claimed by the scene. */
  function SceneEventConsumed(e: SceneEvent): bool {
    e.SceneCustom?
  }

  // ---------------------------------------------------------------------
  // Runs: any interleaving of the scene's callbacks

  datatype Event =
    | Key(ev: InputEvent, now: u32)
    | Timer(now: u32)
    | Scene(e: SceneEvent)
    | Enter
    | Exit

  function Step(s: DictState, e: Event, k: u32, h: u32): DictState {
    match e
    case Key(ev, now) => AfterInput(s, ev, k, h, now)
    case Timer(now) => Ticked(s, now)
    case Scene(se) => AfterSceneEvent(s, se)
    case Enter => Entered(s)
    case Exit => Exited(s)
  }

  function Run(s: DictState, evs: seq<Event>, k: u32, h: u32): DictState
    decreases |evs|
  {
    if evs == [] then s else Run(Step(s, evs[0], k, h), evs[1..], k, h)
  }

  /** Ticks only, at the given times. */
  function TickAll(s: DictState, nows: seq<u32>): DictState
    decreases |nows|
  {
    if nows == [] then s else TickAll(Ticked(s, nows[0]), nows[1..])
  }

  /** What a sequence of ticks selects, in order. */
  function Trials(s: DictState, nows: seq<u32>, k: u32, h: u32): seq<KeyTrial>
    decreases |nows|
  {
    if nows == [] then [] else [TickTrial(s, k, h)] + Trials(Ticked(s, nows[0]), nows[1..], k, h)
  }

  /** What every reachable state satisfies when the catalogue is non-empty. */
  ghost predicate Inv(s: DictState, k: u32, h: u32) {
    && s.keysTried <= s.totalKeys
    && (s.status == Attacking ==> s.keysTried < s.totalKeys)
    && (s.totalKeys == 0 || s.totalKeys == k + h)
    && s.status != Success
    && !s.success
  }

  // ---------------------------------------------------------------------
  // The draw callback's derived values

  datatype DictView = DictView(
    statusText: string,
    tried: u32,
    total: u32,
    bar: Option<nat>,
    seconds: u32,
    keyShown: Option<seq<char>>,
    controls: string)

  function StatusText(st: Status): string {
    match st
    case Idle => "Ready"
    case Attacking => "Attacking..."
    case Success => "SUCCESS!"
    case Complete => "Complete"
  }

  function ControlsText(st: Status): string {
    if st == Idle then "OK=Start  Back=Exit"
    else if st == Attacking then "OK=Stop  Back=Exit"
    else "Back=Exit"
  }

  function Draw(s: DictState): (v: DictView)
    ensures v.bar.Some? <==> s.totalKeys > 0
    ensures v.bar.Some? ==> v.bar.value == ProgressWidth(s.keysTried, s.totalKeys) <= BarWidth
    ensures v.keyShown.Some? ==> s.success
    ensures v.seconds * 1000 <= s.attackTimeMs < v.seconds * 1000 + 1000
  {
    DictView(
      StatusText(s.status),
      s.keysTried,
      s.totalKeys,
      if s.totalKeys > 0 then Some(ProgressWidth(s.keysTried, s.totalKeys)) else None,
      s.attackTimeMs / 1000,
      if s.success && |s.foundKey| > 0 && s.foundKey[0] != '\0' then Some(s.foundKey) else None,
      ControlsText(s.status))
  }

  // ---------------------------------------------------------------------
  // Properties

  /** A started run has a fresh counter, the full catalogue as its total and
      a zero elapsed time; a running attack stops with its counters as they
      were; a finished run ignores OK. */
  lemma OkTransitions(s: DictState, k: u32, h: u32, now: u32)
    requires k + h < U32
    ensures var r := OkPressed(s, k, h, now);
      && (s.status == Idle ==>
            r.status == Attacking && r.keysTried == 0 && r.totalKeys == k + h
            && r.attackTimeMs == 0 && !r.success && r.frequency == s.frequency)
      && (s.status == Attacking ==> r == s.(status := Complete))
      && (s.status in {Success, Complete} ==> r == s)
  {
  }

  /** Each tick while attacking advances the counter by exactly one and
      completes the run exactly when the counter reaches the total; a tick in
      any other status changes nothing. */
  lemma TickCounts(s: DictState, now: u32)
    requires s.status == Attacking ==> s.keysTried < U32 - 1
    ensures var r := Ticked(s, now);
      && (s.status != Attacking ==> r == s)
      && (s.status == Attacking ==>
            && r.keysTried == s.keysTried + 1
            && r.totalKeys == s.totalKeys
            && (r.status == Complete <==> r.keysTried >= r.totalKeys)
            && (r.status == Attacking <==> r.keysTried < r.totalKeys))
  {
  }

  /** Every callback keeps the invariant, provided the catalogue is not empty. */
  lemma InvStep(s: DictState, e: Event, k: u32, h: u32)
    requires 1 <= k + h < U32
    requires Inv(s, k, h)
    ensures Inv(Step(s, e, k, h), k, h)
  {
  }

  lemma {:induction false} InvRun(s: DictState, evs: seq<Event>, k: u32, h: u32)
    requires 1 <= k + h < U32
    requires Inv(s, k, h)
    ensures Inv(Run(s, evs, k, h), k, h)
    decreases |evs|
  {
    if evs != [] {
      InvStep(s, evs[0], k, h);
      InvRun(Step(s, evs[0], k, h), evs[1..], k, h);
    }
  }

  /** From the zeroed static storage, whatever the callbacks do, the counter
      never passes the total. */
  lemma TriedNeverExceedsTotal(evs: seq<Event>, k: u32, h: u32)
    requires 1 <= k + h < U32
    ensures Run(Initial(), evs, k, h).keysTried <= Run(Initial(), evs, k, h).totalKeys
  {
    InvRun(Initial(), evs, k, h);
  }

  /** With an empty catalogue the first tick of a run leaves the counter
      above the total, so the invariant needs a non-empty catalogue. */
  lemma EmptyCatalogOverruns(s: DictState, t0: u32, t1: u32)
    requires s.status == Idle
    ensures var r := Ticked(OkPressed(s, 0, 0, t0), t1);
      r.keysTried == 1 && r.totalKeys == 0 && r.status == Complete
  {
  }

  /** No callback ever reports success, whatever the catalogue. */
  lemma {:induction false} NeverSucceeds(s: DictState, evs: seq<Event>, k: u32, h: u32)
    requires s.status != Success && !s.success
    ensures Run(s, evs, k, h).status != Success && !Run(s, evs, k, h).success
    decreases |evs|
  {
    if evs != [] {
      NeverSucceeds(Step(s, evs[0], k, h), evs[1..], k, h);
    }
  }

  /** Hence the draw callback never shows "SUCCESS!" nor a found key. */
  lemma FoundKeyNeverShown(evs: seq<Event>, k: u32, h: u32)
    ensures var v := Draw(Run(Initial(), evs, k, h));
      v.keyShown == None && v.statusText != "SUCCESS!"
  {
    NeverSucceeds(Initial(), evs, k, h);
  }

  /** A finished run stays finished, counters and all, under every input,
      tick and Back: it restarts only after the scene is left and entered. */
  lemma {:induction false} FinishedRunStays(s: DictState, evs: seq<Event>, k: u32, h: u32)
    requires s.status == Complete
    requires forall i :: 0 <= i < |evs| ==> !evs[i].Enter? && !evs[i].Exit?
    ensures Run(s, evs, k, h) == s
    decreases |evs|
  {
    if evs != [] {
      assert Step(s, evs[0], k, h) == s;
      FinishedRunStays(s, evs[1..], k, h);
    }
  }

  /** Ticking a run that has not yet finished. */
  lemma {:induction false} TickProgress(s: DictState, nows: seq<u32>, k: u32, h: u32)
    requires s.status == Attacking
    requires s.keysTried + |nows| <= s.totalKeys
    requires s.keysTried < s.totalKeys
    ensures var r := TickAll(s, nows);
      && r.keysTried == s.keysTried + |nows|
      && r.totalKeys == s.totalKeys
      && r.status == (if r.keysTried == s.totalKeys then Complete else Attacking)
    ensures Trials(s, nows, k, h) == seq(|nows|, (i: nat) => Route(s.keysTried + i, k, h))
    decreases |nows|
  {
    if nows != [] {
      var s' := Ticked(s, nows[0]);
      if s'.status == Attacking {
        TickProgress(s', nows[1..], k, h);
      } else {
        assert |nows| == 1;
      }
    }
  }

  /** An uninterrupted run routes to every Keeloq entry and then every Hitag2
      index, each exactly once and in order, stays Attacking for the
      first K+H-1 ticks, and is Complete with the counter at the total after
      exactly K+H ticks. */
  lemma {:induction false} FullRun(s: DictState, nows: seq<u32>, k: u32, h: u32, start: u32)
    requires 1 <= k + h < U32
    requires s.status == Idle
    requires |nows| == k + h
    ensures var a := OkPressed(s, k, h, start);
      && Trials(a, nows, k, h) == Catalog(k, h)
      && TickAll(a, nows).status == Complete
      && TickAll(a, nows).keysTried == TickAll(a, nows).totalKeys == k + h
    ensures var a := OkPressed(s, k, h, start);
      forall n :: 0 <= n < |nows| ==> TickAll(a, nows[..n]).status == Attacking
  {
    var a := OkPressed(s, k, h, start);
    TickProgress(a, nows, k, h);
    var trials := Trials(a, nows, k, h);
    forall i | 0 <= i < k + h
      ensures trials[i] == Catalog(k, h)[i]
    {
      assert trials[i] == Route(i, k, h);
      if i < k {
        assert Catalog(k, h)[i] == Keeloq(i);
      } else {
        assert Catalog(k, h)[i] == seq(h, (j: nat) => Hitag2(j))[i - k];
      }
    }
    forall n | 0 <= n < |nows|
      ensures TickAll(a, nows[..n]).status == Attacking
    {
      TickProgress(a, nows[..n], k, h);
    }
  }

  /** The logged percent and the bar width are exact while the counter is
      within the total and the products fit in 32 bits. */
  lemma PercentBounds(tried: u32, total: u32)
    requires 0 < total && tried <= total && total * BarWidth < U32
    ensures Percent(tried, total) == tried * 100 / total <= 100
    ensures Percent(tried, total) == 100 <==> tried == total
    ensures ProgressWidth(tried, total) == tried * BarWidth / total
    ensures ProgressWidth(tried, total) == BarWidth <==> tried == total
  {
    QuotientBound(tried, total, 100);
    QuotientBound(tried, total, BarWidth);
  }

  /** The percent never exceeds 100 while the counter is within the total,
      even when `keys_tried * 100` wraps: a wrapped product is below 2^32,
      which is then at most 100 times the total. */
  lemma PercentAtMost100(tried: u32, total: u32)
    requires 0 < total && tried <= total
    ensures Percent(tried, total) <= 100
  {
    if tried * 100 < U32 {
      QuotientBound(tried, total, 100);
    } else {
      MulMono(tried, total, 100);
      assert Mul(tried, 100) < 100 * total;
      DivLt(Mul(tried, 100), total, 100);
    }
  }

  lemma QuotientBound(a: nat, b: nat, m: nat)
    requires 0 < b && a <= b && 0 < m
    ensures a * m / b <= m
    ensures a * m / b == m <==> a == b
  {
    MulMono(a, b, m);
    assert b * m == m * b;
    DivLe(a * m, b, m);
    if a == b {
      DivExact(m, b);
    } else {
      MulMono(a, b - 1, m);
      assert (b - 1) * m == m * b - m;
      DivLt(a * m, b, m);
    }
  }

  lemma MulMono(x: nat, y: nat, z: nat)
    requires x <= y
    ensures x * z <= y * z
  {
  }

  lemma DivLe(p: nat, b: nat, c: nat)
    requires 0 < b && p <= c * b
    ensures p / b <= c
  {
    var q := p / b;
    assert q * b <= p;
    if q > c {
      MulMono(c + 1, q, b);
    }
  }

  lemma DivLt(p: nat, b: nat, c: nat)
    requires 0 < b && p < c * b
    ensures p / b < c
  {
    var q := p / b;
    assert q * b <= p;
    if q >= c {
      MulMono(c, q, b);
    }
  }

  lemma DivExact(c: nat, b: nat)
    requires 0 < b
    ensures c * b / b == c
  {
    DivLe(c * b, b, c);
    var q := c * b / b;
    assert c * b < q * b + b;
    if q < c {
      MulMono(q + 1, c, b);
    }
  }

  /** Under the invariant, every logged percent is at most 100 and is logged
      at a multiple of fifty keys. */
  lemma LoggedPercentBound(s: DictState, k: u32, h: u32)
    requires 1 <= k + h < U32
    requires Inv(s, k, h)
    ensures TickLog(s).Some? ==> TickLog(s).value <= 100
    ensures TickLog(s).Some? ==> (s.keysTried + 1) % LogEvery == 0
  {
    if TickLog(s).Some? {
      PercentAtMost100(s.keysTried + 1, s.totalKeys);
    }
  }

  // ---------------------------------------------------------------------
  // The scene's static storage, updated in place by its callbacks

  class DictAttackScene {
    const K: u32
    const H: u32

    var status: Status
    var frequency: u32
    var keysTried: u32
    var totalKeys: u32
    var attackTimeMs: u32
    var foundKey: seq<char>
    var success: bool
    var attackStartTick: u32

    function State(): DictState
      reads this
    {
      DictState(status, frequency, keysTried, totalKeys, attackTimeMs, foundKey, success, attackStartTick)
    }

    ghost predicate Valid()
      reads this
    {
      1 <= K + H < U32 && Inv(State(), K, H)
    }

    /** The zero-initialised static storage, for catalogue sizes `k` and `h`. */
    constructor(k: u32, h: u32)
      requires 1 <= k + h < U32
      ensures K == k && H == h
      ensures State() == Initial() && Valid()
    {
      K, H := k, h;
      status, frequency, keysTried, totalKeys := Idle, 0, 0, 0;
      attackTimeMs, foundKey, success, attackStartTick := 0, EmptyKey(), false, 0;
    }

    method Enter()
      requires Valid()
      modifies this
      ensures State() == Entered(old(State())) && Valid()
    {
      status, frequency, keysTried, totalKeys := Idle, 0, 0, 0;
      attackTimeMs, foundKey, success := 0, EmptyKey(), false;
      frequency := DefaultFrequency;
    }

    method PressOk(now: u32)
      requires Valid()
      modifies this
      ensures State() == OkPressed(old(State()), K, H, now) && Valid()
    {
      if status == Idle {
        status := Attacking;
        keysTried := 0;
        totalKeys := Add(K, H);
        attackTimeMs := 0;
        success := false;
        attackStartTick := now;
      } else if status == Attacking {
        status := Complete;
      }
    }

    method HandleInput(ev: InputEvent, now: u32) returns (consumed: bool)
      requires Valid()
      modifies this
      ensures consumed == InputConsumed(ev)
      ensures State() == AfterInput(old(State()), ev, K, H, now) && Valid()
    {
      if ev.kind == Short {
        if ev.key == Back {
          return false;
        } else if ev.key == Ok {
          PressOk(now);
        }
      }
      return true;
    }

    /** The timer callback: reports the Keeloq entry or Hitag2 index it
      selected and the percent it logged. */
    method Tick(now: u32) returns (trial: KeyTrial, logged: Option<u32>)
      requires Valid()
      modifies this
      ensures trial == TickTrial(old(State()), K, H)
      ensures logged == TickLog(old(State()))
      ensures State() == Ticked(old(State()), now) && Valid()
    {
      trial, logged := NoTrial, None;
      if status == Attacking {
        attackTimeMs := Sub(now, attackStartTick);
        if keysTried < K {
          trial := Keeloq(keysTried);
        } else if keysTried < K + H {
          trial := Hitag2(keysTried - K);
        }
        keysTried := Add(keysTried, 1);
        if keysTried % LogEvery == 0 && totalKeys > 0 {
          logged := Some(Percent(keysTried, totalKeys));
        }
        if keysTried >= totalKeys {
          status := Complete;
        }
      }
    }

    method HandleSceneEvent(e: SceneEvent) returns (consumed: bool)
      requires Valid()
      modifies this
      ensures consumed == SceneEventConsumed(e)
      ensures State() == AfterSceneEvent(old(State()), e) && Valid()
    {
      if e.SceneBack? {
        if status == Attacking {
          status := Complete;
        }
        return false;
      }
      return e.SceneCustom?;
    }

    method Exit()
      requires Valid()
      modifies this
      ensures State() == Exited(old(State())) && Valid()
    {
      status := Idle;
    }
  }
}
