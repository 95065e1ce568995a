/**
 GPIO interrupts over the USB bridge: the bitmaps of unmasked, enabled and to-be-re-enabled pins, the
 messages that follow from them, and what the two say about each other in every run.
 */
module LjcaGpio {
  import opened Bytes

  const MAX_GPIO_NUM := 64
  const GPIO_INT_EVENT: byte := 4
  const GPIO_CONF_PULLUP: byte := 8
  const GPIO_CONF_PULLDOWN: byte := 16
  const GPIO_CONF_INTERRUPT: byte := 64
  const GPIO_CONF_EDGE: byte := 128
  const EINVAL := -22

  /** A message to the device about one pin. */
  datatype Op = Config(pin: nat, value: byte) | IntMask(pin: nat) | IntUnmask(pin: nat)

  type Bitmap = b: seq<bool> | |b| == MAX_GPIO_NUM witness seq(MAX_GPIO_NUM, _ => false)

  datatype Gpio = Gpio(unmasked: Bitmap, enabled: Bitmap, reenable: Bitmap, sent: seq<Op>)

  function NoPins(): (b: Bitmap)
    ensures forall p :: 0 <= p < MAX_GPIO_NUM ==> !b[p]
  {
    seq(MAX_GPIO_NUM, _ => false)
  }

  function Fresh(): Gpio {
    Gpio(NoPins(), NoPins(), NoPins(), [])
  }

  type Pin = p: nat | p < MAX_GPIO_NUM

  /** What the device was last told about a pin's interrupt. */
  datatype Told = Never | Told(unmask: bool)

  function LastTold(sent: seq<Op>, p: Pin): Told {
    if sent == [] then Never
    else
      match sent[|sent| - 1]
      case IntMask(q) => if q == p then Told(false) else LastTold(sent[..|sent| - 1], p)
      case IntUnmask(q) => if q == p then Told(true) else LastTold(sent[..|sent| - 1], p)
      case Config(_, _) => LastTold(sent[..|sent| - 1], p)
  }

  lemma ToldSnoc(sent: seq<Op>, op: Op, p: Pin)
    ensures LastTold(sent + [op], p) ==
              match op
              case IntMask(q) => if q == p then Told(false) else LastTold(sent, p)
              case IntUnmask(q) => if q == p then Told(true) else LastTold(sent, p)
              case Config(_, _) => LastTold(sent, p)
  {
    assert (sent + [op])[..|sent|] == sent;
  }

  /** The messages of ljca_irq_bus_unlock, which only a change of the pin's mask calls for. */
  function SyncOps(g: Gpio, p: Pin, valid: bool, mode: byte): seq<Op> {
    if g.enabled[p] == g.unmasked[p] then []
    else if g.unmasked[p] then (if valid then [Config(p, mode)] else []) + [IntUnmask(p)]
    else [IntMask(p)]
  }

  /** What ljca_gpio_async does for one pin whose bit is set: clear it, then unmask the pin if it is not masked. */
  function Reenabled(g: Gpio, p: Pin): Gpio {
    var g1 := g.(reenable := g.reenable[p := false]);
    if g1.unmasked[p] then g1.(sent := g1.sent + [IntUnmask(p)]) else g1
  }

  function AsyncFrom(g: Gpio, p: nat, n: nat): Gpio
    requires p <= n <= MAX_GPIO_NUM
    decreases n - p
  {
    if p == n then g else AsyncFrom(if g.reenable[p] then Reenabled(g, p) else g, p + 1, n)
  }

  /** The pins to unmask, in order. */
  function Due(g: Gpio, p: nat, n: nat): (ops: seq<Op>)
    requires p <= n <= MAX_GPIO_NUM
    decreases n - p
  {
    if p == n then [] else (if g.reenable[p] && g.unmasked[p] then [IntUnmask(p)] else []) + Due(g, p + 1, n)
  }

  function Count(ops: seq<Op>, op: Op): nat {
    if ops == [] then 0 else (if ops[0] == op then 1 else 0) + Count(ops[1..], op)
  }

  lemma DueOf(g: Gpio, h: Gpio, p: nat, n: nat)
    requires p <= n <= MAX_GPIO_NUM && g.unmasked == h.unmasked
    requires forall q :: p <= q < n ==> g.reenable[q] == h.reenable[q]
    ensures Due(g, p, n) == Due(h, p, n)
    decreases n - p
  {
  }

  lemma {:induction false} AsyncSends(g: Gpio, p: nat, n: nat)
    requires p <= n <= MAX_GPIO_NUM
    ensures var g' := AsyncFrom(g, p, n);
            && g'.sent == g.sent + Due(g, p, n) && g'.unmasked == g.unmasked && g'.enabled == g.enabled
            && forall q: Pin :: g'.reenable[q] == if p <= q < n then false else g.reenable[q]
    decreases n - p
  {
    if p < n {
      var g1 := if g.reenable[p] then Reenabled(g, p) else g;
      AsyncSends(g1, p + 1, n);
      DueOf(g, g1, p + 1, n);
    }
  }

  lemma {:induction false} CountAppend(a: seq<Op>, b: seq<Op>, op: Op)
    ensures Count(a + b, op) == Count(a, op) + Count(b, op)
  {
    if a == [] {
      assert a + b == b;
    } else {
      assert (a + b)[1..] == a[1..] + b;
      CountAppend(a[1..], b, op);
    }
  }

  lemma {:induction false} DueOnce(g: Gpio, p: nat, n: nat, q: Pin)
    requires p <= n <= MAX_GPIO_NUM
    ensures Count(Due(g, p, n), IntUnmask(q)) == if p <= q < n && g.reenable[q] && g.unmasked[q] then 1 else 0
    ensures Count(Due(g, p, n), IntMask(q)) == 0
    decreases n - p
  {
    if p < n {
      var first: seq<Op> := if g.reenable[p] && g.unmasked[p] then [IntUnmask(p)] else [];
      CountAppend(first, Due(g, p + 1, n), IntUnmask(q));
      CountAppend(first, Due(g, p + 1, n), IntMask(q));
      DueOnce(g, p + 1, n, q);
    }
  }

  /**
   One run of the re-enable work: every pin in range that is due and unmasked is unmasked at the device
   exactly once, no other message is about its mask, and exactly the bits in range are cleared.
   */
  lemma AsyncExactly(g: Gpio, n: nat)
    requires n <= MAX_GPIO_NUM
    ensures var g' := AsyncFrom(g, 0, n);
            && g.sent <= g'.sent && g'.unmasked == g.unmasked && g'.enabled == g.enabled
            && forall q: Pin ::
                 && Count(g'.sent[|g.sent|..], IntUnmask(q)) == (if q < n && g.reenable[q] && g.unmasked[q] then 1 else 0)
                 && Count(g'.sent[|g.sent|..], IntMask(q)) == 0
                 && g'.reenable[q] == (g.reenable[q] && q >= n)
  {
    AsyncSends(g, 0, n);
    var g' := AsyncFrom(g, 0, n);
    assert g'.sent[|g.sent|..] == Due(g, 0, n);
    forall q: Pin
      ensures Count(Due(g, 0, n), IntUnmask(q)) == (if q < n && g.reenable[q] && g.unmasked[q] then 1 else 0)
      ensures Count(Due(g, 0, n), IntMask(q)) == 0
    {
      DueOnce(g, 0, n, q);
    }
  }

  // Runs: locked rounds of masking and unmasking, events, and the work one pin at a time.

  const NONE := -1

  /** The work: between pins, past the clearing of a pin's bit, or past finding the pin unmasked. */
  datatype Work = Idle | Cleared(p: Pin) | Found(p: Pin)

  /** `pin`: whose round holds the bus lock; `synced`: the round's messages are out, its bit of `enabled` not yet set. */
  datatype State = State(g: Gpio, pin: int, synced: bool, work: Work)

  datatype Event =
    | Lock(p: Pin)
    | Mask
    | Unmask
    | Sync(valid: bool, mode: byte)
    | Unlock
    | Fired(p: Pin)
    | Clear(p: Pin)
    | Test
    | Tell

  predicate Enabled(s: State, e: Event) {
    match e
    case Lock(_) => s.pin == NONE
    case Mask => 0 <= s.pin < MAX_GPIO_NUM && !s.synced
    case Unmask => 0 <= s.pin < MAX_GPIO_NUM && !s.synced
    case Sync(_, _) => 0 <= s.pin < MAX_GPIO_NUM && !s.synced
    case Unlock => 0 <= s.pin < MAX_GPIO_NUM && s.synced
    case Fired(_) => true
    case Clear(p) => s.work.Idle? && s.g.reenable[p]
    case Test => s.work.Cleared?
    case Tell => s.work.Found?
  }

  function Next(s: State, e: Event): State
    requires Enabled(s, e)
  {
    match e
    case Lock(p) => s.(pin := p, synced := false)
    case Mask => s.(g := s.g.(unmasked := s.g.unmasked[s.pin := false]))
    case Unmask => s.(g := s.g.(unmasked := s.g.unmasked[s.pin := true]))
    case Sync(valid, mode) => s.(g := s.g.(sent := s.g.sent + SyncOps(s.g, s.pin, valid, mode)), synced := true)
    case Unlock => s.(g := s.g.(enabled := s.g.enabled[s.pin := s.g.unmasked[s.pin]]), pin := NONE, synced := false)
    case Fired(p) => s.(g := s.g.(reenable := s.g.reenable[p := true]))
    case Clear(p) => s.(g := s.g.(reenable := s.g.reenable[p := false]), work := Cleared(p))
    case Test => s.(work := if s.g.unmasked[s.work.p] then Found(s.work.p) else Idle)
    case Tell => s.(g := s.g.(sent := s.g.sent + [IntUnmask(s.work.p)]), work := Idle)
  }

  ghost predicate IsRun(s: State, run: seq<Event>)
    decreases |run|
  {
    run != [] ==> Enabled(s, run[0]) && IsRun(Next(s, run[0]), run[1..])
  }

  function Exec(s: State, run: seq<Event>): State
    requires IsRun(s, run)
    decreases |run|
  {
    if run == [] then s else Exec(Next(s, run[0]), run[1..])
  }

  function Start(): State {
    State(Fresh(), NONE, false, Idle)
  }

  ghost predicate EnabledIsUnmasked(s: State) {
    && NONE <= s.pin < MAX_GPIO_NUM
    && forall p: Pin :: p != s.pin ==> s.g.enabled[p] == s.g.unmasked[p]
  }

  lemma {:induction false} EnabledIsUnmaskedRun(s: State, run: seq<Event>)
    requires EnabledIsUnmasked(s) && IsRun(s, run)
    ensures EnabledIsUnmasked(Exec(s, run))
    decreases |run|
  {
    if run != [] {
      EnabledIsUnmaskedRun(Next(s, run[0]), run[1..]);
    }
  }

  /** Every run, however rounds, events and the work interleave: outside its own round a pin is enabled iff it is unmasked. */
  lemma EnabledOutsideLock(run: seq<Event>, p: Pin)
    requires IsRun(Start(), run) && Exec(Start(), run).pin != p
    ensures var g := Exec(Start(), run).g; g.enabled[p] == g.unmasked[p]
  {
    EnabledIsUnmaskedRun(Start(), run);
  }

  // What the device is told, in every run.

  /** What the rounds have settled for a pin, the messages of the one under way included once they are out. */
  predicate Settled(s: State, p: Pin) {
    if s.synced && s.pin == p then s.g.unmasked[p] else s.g.enabled[p]
  }

  /** The work tells the device to unmask a pin for which that is not settled. */
  predicate Stray(s: State, e: Event, p: Pin) {
    e.Tell? && s.work == Found(p) && !Settled(s, p)
  }

  /** A round has a message for the pin. */
  predicate Resolves(s: State, e: Event, p: Pin) {
    e.Sync? && s.pin == p && s.g.enabled[p] != s.g.unmasked[p]
  }

  /** There was a stray message for the pin, and no round has had one for it since. */
  ghost predicate Strayed(s: State, run: seq<Event>, p: Pin, already: bool)
    requires IsRun(s, run)
    decreases |run|
  {
    if run == [] then already
    else Strayed(Next(s, run[0]), run[1..], p, Stray(s, run[0], p) || (already && !Resolves(s, run[0], p)))
  }

  ghost predicate ToldAs(s: State, p: Pin, strayed: bool) {
    LastTold(s.g.sent, p) == Told(true) <==> Settled(s, p) || strayed
  }

  lemma ToldStep(s: State, e: Event, p: Pin, strayed: bool)
    requires Enabled(s, e) && ToldAs(s, p, strayed) && (s.synced ==> s.pin != NONE)
    ensures ToldAs(Next(s, e), p, Stray(s, e, p) || (strayed && !Resolves(s, e, p)))
  {
    hide LastTold;
    match e
    case Tell =>
      ToldSnoc(s.g.sent, IntUnmask(s.work.p), p);
    case Sync(valid, mode) =>
      ToldAfterSync(s.g, s.pin, valid, mode, p);
    case _ =>
  }

  lemma ToldAfterSync(g: Gpio, p: Pin, valid: bool, mode: byte, q: Pin)
    ensures LastTold(g.sent + SyncOps(g, p, valid, mode), q) ==
              if p == q && g.enabled[p] != g.unmasked[p] then Told(g.unmasked[p]) else LastTold(g.sent, q)
  {
    hide LastTold;
    if g.enabled[p] == g.unmasked[p] {
      assert g.sent + [] == g.sent;
    } else if !g.unmasked[p] {
      ToldSnoc(g.sent, IntMask(p), q);
    } else if valid {
      ToldSnoc(g.sent, Config(p, mode), q);
      ToldSnoc(g.sent + [Config(p, mode)], IntUnmask(p), q);
      assert g.sent + ([Config(p, mode)] + [IntUnmask(p)]) == g.sent + [Config(p, mode)] + [IntUnmask(p)];
    } else {
      ToldSnoc(g.sent, IntUnmask(p), q);
      var none: seq<Op> := [];
      assert none + [IntUnmask(p)] == [IntUnmask(p)];
    }
  }

  lemma {:induction false} ToldRun(s: State, run: seq<Event>, p: Pin, strayed: bool)
    requires IsRun(s, run) && ToldAs(s, p, strayed) && (s.synced ==> s.pin != NONE)
    ensures ToldAs(Exec(s, run), p, Strayed(s, run, p, strayed))
    decreases |run|
  {
    hide ToldAs, Stray, Resolves;
    if run != [] {
      ToldStep(s, run[0], p, strayed);
      ToldRun(Next(s, run[0]), run[1..], p, Stray(s, run[0], p) || (strayed && !Resolves(s, run[0], p)));
    }
  }

  /**
   Over every run: the last the device was told about a pin is to unmask it exactly if that is settled,
   or the work has told it so while it was not and no round has had a message for the pin since.
   */
  lemma ToldExactly(run: seq<Event>, p: Pin)
    requires IsRun(Start(), run)
    ensures var s := Exec(Start(), run);
            LastTold(s.g.sent, p) == Told(true) <==> Settled(s, p) || Strayed(Start(), run, p, false)
  {
    ToldRun(Start(), run, p, false);
  }

  /** So outside its round pin and device disagree exactly if the pin is masked and such a message has strayed. */
  lemma DeviceAgreesExactly(run: seq<Event>, p: Pin)
    requires IsRun(Start(), run) && Exec(Start(), run).pin != p
    ensures var g := Exec(Start(), run).g;
            (LastTold(g.sent, p) == Told(true) <==> g.unmasked[p]) <==> (g.unmasked[p] || !Strayed(Start(), run, p, false))
  {
    ToldExactly(run, p);
    EnabledOutsideLock(run, p);
    hide LastTold, Strayed, IsRun, Exec, Start;
  }

  /** The work does not test the pin during a round on it, and no round on it starts while the work has yet to tell. */
  predicate Apart(s: State, e: Event, p: Pin) {
    && (e == Test && s.work == Cleared(p) ==> s.pin != p)
    && (e == Lock(p) ==> s.work != Found(p))
  }

  ghost predicate ApartRun(s: State, run: seq<Event>, p: Pin)
    requires IsRun(s, run)
    decreases |run|
  {
    run != [] ==> Apart(s, run[0], p) && ApartRun(Next(s, run[0]), run[1..], p)
  }

  lemma {:induction false} NothingStrays(s: State, run: seq<Event>, p: Pin)
    requires IsRun(s, run) && ApartRun(s, run, p) && EnabledIsUnmasked(s)
    requires s.work == Found(p) ==> s.pin != p && s.g.unmasked[p]
    ensures !Strayed(s, run, p, false)
    decreases |run|
  {
    if run != [] {
      EnabledIsUnmaskedRun(s, [run[0]]);
      OneStep(s, run[0]);
      NothingStrays(Next(s, run[0]), run[1..], p);
    }
  }

  lemma OneStep(s: State, e: Event)
    requires Enabled(s, e)
    ensures IsRun(s, [e]) && Exec(s, [e]) == Next(s, e)
  {
    assert [e][1..] == [];
  }

  /**
   In particular, with the work and the rounds on this one pin apart, whatever other pins do, the pin is
   unmasked outside its round iff that is what the device was last told.
   */
  lemma DeviceAgrees(run: seq<Event>, p: Pin)
    requires IsRun(Start(), run) && ApartRun(Start(), run, p) && Exec(Start(), run).pin != p
    ensures var g := Exec(Start(), run).g; LastTold(g.sent, p) == Told(true) <==> g.unmasked[p]
  {
    NothingStrays(Start(), run, p);
    DeviceAgreesExactly(run, p);
    hide LastTold, Strayed, IsRun, Exec, Start;
  }

  // Otherwise the device can be left unmasked for a masked pin.

  lemma {:induction false} Then(s: State, run: seq<Event>, s1: State, e: Event)
    requires IsRun(s, run) && Exec(s, run) == s1 && Enabled(s1, e)
    ensures IsRun(s, run + [e]) && Exec(s, run + [e]) == Next(s1, e)
    decreases |run|
  {
    hide Next, Enabled;
    if run == [] {
      assert [] + [e] == [e] && [e][1..] == [];
    } else {
      Then(Next(s, run[0]), run[1..], s1, e);
      assert (run + [e])[1..] == run[1..] + [e];
    }
  }

  function Only(p: Pin): Bitmap {
    NoPins()[p := true]
  }

  /** The work tests a pin, a round masks it, and only then does the work tell the device. */
  lemma TornWorkUnmasks() returns (run: seq<Event>)
    ensures IsRun(Start(), run)
    ensures var s := Exec(Start(), run);
            s.pin == NONE && s.work == Idle && !s.g.unmasked[0] && LastTold(s.g.sent, 0) == Told(true)
  {
    var told := [Config(0, 0), IntUnmask(0)];
    run := FirstRound();
    hide IsRun, Exec, LastTold;
    Then(Start(), run, State(Gpio(Only(0), Only(0), NoPins(), told), NONE, false, Idle), Fired(0));
    run := run + [Fired(0)];
    Then(Start(), run, State(Gpio(Only(0), Only(0), Only(0), told), NONE, false, Idle), Clear(0));
    assert Only(0)[0 := false] == NoPins();
    run := run + [Clear(0)];
    var g := Gpio(Only(0), Only(0), NoPins(), told);
    Then(Start(), run, State(g, NONE, false, Cleared(0)), Test);
    run := MaskingRound(run + [Test], told);
    Then(Start(), run, State(Gpio(NoPins(), NoPins(), NoPins(), told + [IntMask(0)]), NONE, false, Found(0)), Tell);
    run := run + [Tell];
    ToldSnoc(told + [IntMask(0)], IntUnmask(0), 0);
  }

  /** A round that masks pin 0 again, the work about to tell the device. */
  lemma MaskingRound(before: seq<Event>, told: seq<Op>) returns (run: seq<Event>)
    requires IsRun(Start(), before) && Exec(Start(), before) == State(Gpio(Only(0), Only(0), NoPins(), told), NONE, false, Found(0))
    ensures IsRun(Start(), run)
    ensures Exec(Start(), run) == State(Gpio(NoPins(), NoPins(), NoPins(), told + [IntMask(0)]), NONE, false, Found(0))
  {
    hide IsRun, Exec;
    assert Only(0)[0 := false] == NoPins();
    var s := State(Gpio(Only(0), Only(0), NoPins(), told), 0, false, Found(0));
    Then(Start(), before, s.(pin := NONE), Lock(0));
    Then(Start(), before + [Lock(0)], s, Mask);
    var s1 := s.(g := s.g.(unmasked := NoPins()));
    run := before + [Lock(0)] + [Mask];
    Then(Start(), run, s1, Sync(true, 0));
    run := run + [Sync(true, 0)];
    Then(Start(), run, s1.(g := s1.g.(sent := told + [IntMask(0)]), synced := true), Unlock);
    run := run + [Unlock];
  }

  /** A round that unmasks pin 0. */
  lemma FirstRound() returns (run: seq<Event>)
    ensures IsRun(Start(), run)
    ensures Exec(Start(), run) == State(Gpio(Only(0), Only(0), NoPins(), [Config(0, 0), IntUnmask(0)]), NONE, false, Idle)
  {
    Then(Start(), [], Start(), Lock(0));
    hide IsRun, Exec;
    Then(Start(), [] + [Lock(0)], State(Fresh(), 0, false, Idle), Unmask);
    run := [] + [Lock(0)] + [Unmask];
    var s2 := State(Gpio(Only(0), NoPins(), NoPins(), []), 0, false, Idle);
    Then(Start(), run, s2, Sync(true, 0));
    run := run + [Sync(true, 0)];
    Then(Start(), run, s2.(g := s2.g.(sent := [Config(0, 0), IntUnmask(0)]), synced := true), Unlock);
    run := run + [Unlock];
  }

  /** A round unmasks pin 0, due since an event, and the work gets to it before the round is over. */
  lemma WorkInsideRound() returns (run: seq<Event>)
    ensures IsRun(Start(), run)
    ensures Exec(Start(), run) == State(Gpio(Only(0), NoPins(), NoPins(), []), 0, false, Found(0))
  {
    Then(Start(), [], Start(), Fired(0));
    hide IsRun, Exec;
    var s1 := State(Gpio(NoPins(), NoPins(), Only(0), []), NONE, false, Idle);
    Then(Start(), [] + [Fired(0)], s1, Lock(0));
    run := [] + [Fired(0)] + [Lock(0)];
    Then(Start(), run, s1.(pin := 0), Unmask);
    run := run + [Unmask];
    Then(Start(), run, State(Gpio(Only(0), NoPins(), Only(0), []), 0, false, Idle), Clear(0));
    assert Only(0)[0 := false] == NoPins();
    run := run + [Clear(0)];
    Then(Start(), run, State(Gpio(Only(0), NoPins(), NoPins(), []), 0, false, Cleared(0)), Test);
    run := run + [Test];
  }

  /** The work runs inside a round that unmasks a pin and masks it again, so the round itself sends nothing. */
  lemma WorkInsideRoundUnmasks() returns (run: seq<Event>)
    ensures IsRun(Start(), run)
    ensures var s := Exec(Start(), run);
            s.pin == NONE && s.work == Idle && !s.g.unmasked[0] && LastTold(s.g.sent, 0) == Told(true)
  {
    run := WorkInsideRound();
    hide IsRun, Exec, LastTold;
    Then(Start(), run, State(Gpio(Only(0), NoPins(), NoPins(), []), 0, false, Found(0)), Tell);
    run := run + [Tell];
    Then(Start(), run, State(Gpio(Only(0), NoPins(), NoPins(), [] + [IntUnmask(0)]), 0, false, Idle), Mask);
    run := run + [Mask];
    assert Only(0)[0 := false] == NoPins();
    var s1 := State(Gpio(NoPins(), NoPins(), NoPins(), [] + [IntUnmask(0)]), 0, false, Idle);
    assert s1.g.sent + SyncOps(s1.g, 0, true, 0) == s1.g.sent;
    Then(Start(), run, s1, Sync(true, 0));
    run := run + [Sync(true, 0)];
    Then(Start(), run, s1.(synced := true), Unlock);
    run := run + [Unlock];
    assert NoPins()[0 := false] == NoPins();
    ToldSnoc([], IntUnmask(0), 0);
  }

  // The driver.

  datatype Trigger = LevelHigh | LevelLow | EdgeBoth | EdgeRising | EdgeFalling | Other

  /** The pins an event lists, as far as its bytes go. */
  function Listed(data: seq<byte>, i: nat): byte
    requires 1 + 2 * i + 1 < |data|
  {
    data[1 + 2 * i]
  }

  class GpioDev {
    const num: nat                    // ngpio
    const validPins: Bitmap
    const mapped: byte -> bool        // pins with an interrupt mapping
    const unmasked: array<bool>
    const enabled: array<bool>
    const reenable: array<bool>
    const connectMode: array<byte>
    var locked: bool
    var sent: seq<Op>
    var handled: seq<byte>            // pins whose interrupt handlers have run
    var scheduled: bool               // the work is queued
    var overread: bool                // an event announced more items than it carries
    ghost var pin: int                // whose round holds the bus lock

    ghost predicate Valid()
      reads this, unmasked, enabled, reenable
    {
      && num <= MAX_GPIO_NUM && connectMode.Length == num
      && unmasked.Length == enabled.Length == reenable.Length == MAX_GPIO_NUM
      && unmasked != enabled && unmasked != reenable && enabled != reenable
      && (forall p :: mapped(p) ==> p as int < num)
      && (if locked then 0 <= pin < num else pin == NONE)
      && forall p: Pin :: p != pin ==> enabled[p] == unmasked[p]
    }

    function View(): Gpio
      requires unmasked.Length == enabled.Length == reenable.Length == MAX_GPIO_NUM
      reads this, unmasked, enabled, reenable
    {
      Gpio(unmasked[..], enabled[..], reenable[..], sent)
    }

    constructor (num: nat, validPins: Bitmap, mapped: byte -> bool)
      requires num <= MAX_GPIO_NUM && forall p :: mapped(p) ==> p as int < num
      ensures Valid() && View() == Fresh() && !locked && handled == [] && !scheduled && !overread
      ensures this.num == num && this.validPins == validPins && this.mapped == mapped
    {
      this.num, this.validPins, this.mapped := num, validPins, mapped;
      unmasked := new bool[MAX_GPIO_NUM](_ => false);
      enabled := new bool[MAX_GPIO_NUM](_ => false);
      reenable := new bool[MAX_GPIO_NUM](_ => false);
      connectMode := new byte[num](_ => 0);
      locked, sent, handled, scheduled, overread, pin := false, [], [], false, false, NONE;
      new;
      assert unmasked[..] == NoPins() && enabled[..] == NoPins() && reenable[..] == NoPins();
    }

    /** ljca_irq_bus_lock, for a round on pin `p`. */
    method IrqBusLock(ghost p: nat)
      requires Valid() && !locked && p < num
      modifies this`locked, this`pin
      ensures Valid() && locked && pin == p && View() == old(View())
    {
      locked := true;
      pin := p;
    }

    /** ljca_irq_mask. */
    method IrqMask(p: nat)
      requires Valid() && locked && p == pin
      modifies unmasked
      ensures Valid() && View() == Next(State(old(View()), p, false, Idle), Mask).g
    {
      unmasked[p] := false;
    }

    /** ljca_irq_unmask. */
    method IrqUnmask(p: nat)
      requires Valid() && locked && p == pin
      modifies unmasked
      ensures Valid() && View() == Next(State(old(View()), p, false, Idle), Unmask).g
    {
      unmasked[p] := true;
    }

    /** ljca_irq_set_type: the pin's connection mode, from which its next configuration message is made. */
    method IrqSetType(p: nat, trigger: Trigger) returns (ret: int)
      requires Valid() && p < num
      modifies connectMode
      ensures Valid() && View() == old(View())
      ensures ret == if trigger.Other? then EINVAL else 0
      ensures connectMode[p] >= GPIO_CONF_INTERRUPT
      ensures connectMode[p] / GPIO_CONF_EDGE % 2 == (if trigger.EdgeRising? || trigger.EdgeFalling? then 1 else 0)
      ensures connectMode[p] / GPIO_CONF_PULLUP % 2 == (if trigger.LevelHigh? || trigger.EdgeRising? then 1 else 0)
      ensures connectMode[p] / GPIO_CONF_PULLDOWN % 2 == (if trigger.LevelLow? || trigger.EdgeFalling? then 1 else 0)
      ensures forall q :: 0 <= q < num && q != p ==> connectMode[q] == old(connectMode[q])
    {
      connectMode[p] := GPIO_CONF_INTERRUPT;
      match trigger {
        case LevelHigh => connectMode[p] := connectMode[p] as int + GPIO_CONF_PULLUP as int;
        case LevelLow => connectMode[p] := connectMode[p] as int + GPIO_CONF_PULLDOWN as int;
        case EdgeBoth =>
        case EdgeRising => connectMode[p] := connectMode[p] as int + GPIO_CONF_EDGE as int + GPIO_CONF_PULLUP as int;
        case EdgeFalling => connectMode[p] := connectMode[p] as int + GPIO_CONF_EDGE as int + GPIO_CONF_PULLDOWN as int;
        case Other => return EINVAL;
      }
      ret := 0;
    }

    /** gpio_config with no extra bits: refused for a pin that is not valid. */
    method GpioConfig(p: nat)
      requires Valid() && p < MAX_GPIO_NUM
      modifies this`sent
      ensures sent == old(sent) + if p < num && validPins[p] then [Config(p, connectMode[p])] else []
    {
      if p < num && validPins[p] {
        sent := sent + [Config(p, connectMode[p])];
      }
    }

    /** ljca_irq_bus_unlock: the round ends with the device told of a change, and the pin enabled iff it is unmasked. */
    method IrqBusUnlock(p: nat)
      requires Valid() && locked && p == pin
      modifies this`locked, this`pin, this`sent, enabled
      ensures Valid() && !locked
      ensures View() == Next(Next(State(old(View()), p, false, Idle), Sync(validPins[p], connectMode[p])), Unlock).g
      ensures old(enabled[p] == unmasked[p]) ==> sent == old(sent)
      ensures old(enabled[p]) && !old(unmasked[p]) ==> sent == old(sent) + [IntMask(p)]
      ensures !old(enabled[p]) && old(unmasked[p]) ==>
                sent == old(sent) + (if validPins[p] then [Config(p, connectMode[p]), IntUnmask(p)] else [IntUnmask(p)])
      ensures enabled[p] == unmasked[p] && unmasked[..] == old(unmasked[..])
    {
      ghost var was := View();
      if enabled[p] != unmasked[p] {
        if unmasked[p] {
          GpioConfig(p);
          sent := sent + [IntUnmask(p)];
          enabled[p] := true;
        } else {
          sent := sent + [IntMask(p)];
          enabled[p] := false;
        }
      }
      locked := false;
      pin := NONE;
      assert enabled[..] == was.enabled[p := was.unmasked[p]];
      assert was.sent + [] == was.sent;
    }

    /**
     ljca_gpio_event_cb: the handlers of the listed pins run in order up to the first pin without a
     mapping; each of those pins, and no other, becomes due for re-enabling, and the work is queued
     exactly when no such pin was met.
     */
    method EventCb(cmd: byte, data: seq<byte>)
      requires Valid()
      modifies reenable, this`handled, this`scheduled, this`overread
      ensures Valid() && sent == old(sent)
      ensures cmd != GPIO_INT_EVENT ==> View() == old(View()) && handled == old(handled) && scheduled == old(scheduled)
      ensures cmd == GPIO_INT_EVENT && |data| > 0 && 1 + 2 * data[0] as int <= |data| ==>
                exists k :: EventHandled(data, k, old(View().reenable), View().reenable, old(handled), handled, old(scheduled), scheduled)
    {
      if cmd != GPIO_INT_EVENT {
        return;
      }
      if |data| == 0 {
        overread := true;
        return;
      }
      var i := 0;
      while i < data[0] as int
        invariant 0 <= i <= data[0] as int && Valid()
        invariant 1 + 2 * i <= |data|
        invariant scheduled == old(scheduled)
        invariant handled == old(handled) + PinsOf(data, i)
        invariant forall j :: 0 <= j < i ==> mapped(Listed(data, j))
        invariant forall q: Pin :: reenable[q] == (old(reenable[q]) || q in PinsOf(data, i))
      {
        if 1 + 2 * i + 1 >= |data| {
          overread := true;
          return;
        }
        var p := Listed(data, i);
        if !mapped(p) {
          assert EventHandled(data, i, old(View().reenable), View().reenable, old(handled), handled, old(scheduled), scheduled);
          return;
        }
        handled := handled + [p];
        reenable[p] := true;
        i := i + 1;
      }
      scheduled := true;
      assert EventHandled(data, i, old(View().reenable), View().reenable, old(handled), handled, old(scheduled), scheduled);
    }

    /** The outcome of an event of which the first `k` items were handled. */
    ghost predicate EventHandled(data: seq<byte>, k: nat, before: Bitmap, after: Bitmap, handledBefore: seq<byte>, handledAfter: seq<byte>,
                                 queuedBefore: bool, queuedAfter: bool)
    {
      && |data| > 0 && k <= data[0] as int && 1 + 2 * k <= |data|
      && (k < data[0] as int ==> 1 + 2 * k + 1 < |data|)
      && (forall j :: 0 <= j < k ==> mapped(Listed(data, j)))
      && (k < data[0] as int ==> !mapped(Listed(data, k)))
      && handledAfter == handledBefore + PinsOf(data, k)
      && (forall q: Pin :: after[q] == (before[q] || q in PinsOf(data, k)))
      && queuedAfter == (queuedBefore || k == data[0] as int)
    }

    /** ljca_gpio_async. */
    method Async()
      requires Valid()
      modifies reenable, this`sent, this`scheduled
      ensures Valid() && !scheduled && View() == AsyncFrom(old(View()), 0, num)
    {
      scheduled := false;
      var p := 0;
      while p < num
        invariant 0 <= p <= num && Valid() && !scheduled
        invariant AsyncFrom(View(), p, num) == AsyncFrom(old(View()), 0, num)
      {
        ghost var was := View();
        if reenable[p] {
          reenable[p] := false;
          if unmasked[p] {
            sent := sent + [IntUnmask(p)];
          }
          assert reenable[..] == was.reenable[p := false];
        }
        p := p + 1;
      }
    }
  }

  function PinsOf(data: seq<byte>, k: nat): (ps: seq<byte>)
    requires 1 + 2 * k <= |data|
    ensures |ps| == k && forall j :: 0 <= j < k ==> ps[j] == Listed(data, j)
  {
    seq(k, j requires 0 <= j < k => Listed(data, j))
  }

  /** One item of an event as the device sends it. */
  datatype Item = Item(index: byte, value: byte)

  function ItemBytes(items: seq<Item>): (s: seq<byte>)
    ensures |s| == 2 * |items|
  {
    if items == [] then [] else [items[0].index, items[0].value] + ItemBytes(items[1..])
  }

  lemma {:induction false} ItemAt(items: seq<Item>, j: nat)
    requires j < |items|
    ensures ItemBytes(items)[2 * j] == items[j].index
  {
    if j > 0 {
      ItemAt(items[1..], j - 1);
    }
  }

  /** The pins of an event are the indices of its items; their values play no part. */
  lemma PinsOfEvent(items: seq<Item>, k: nat, behind: seq<byte>)
    requires |items| < 0x100 && k <= |items|
    ensures var data := [|items|] + ItemBytes(items) + behind;
            PinsOf(data, k) == seq(k, j requires 0 <= j < k => items[j].index)
  {
    hide ItemBytes;
    var data := [|items|] + ItemBytes(items) + behind;
    forall j | 0 <= j < k
      ensures Listed(data, j) == items[j].index
    {
      ItemAt(items, j);
      assert data[1 + 2 * j] == ItemBytes(items)[2 * j];
    }
  }
}
