/** The TI part of the readout list (ti_list.c): the trigger-block read that
    starts every trigger, the sync-event counter that keeps or stops the
    pedestal pulser, the TI sync drain, the slave-side check of the block and
    buffer levels at Go, the pulser set-up at Go, and the trigger-source
    setter. */
module Ti {
  import opened Daq

  /** TI_TRIGGER_TSINPUTS and TI_TRIGGER_PULSER: the TI trigger inputs selected for source 0 / other. */
  const TI_TRIGGER_TSINPUTS: int := 3
  const TI_TRIGGER_PULSER: int := 5

  /** Which TI build the list was made for (TI_MASTER or TI_SLAVE). */
  datatype Role = Master | Slave

  /** TI_SYNCEVENT_CONFIG: `current` counts sync events for the pedestal feature. */
  datatype SyncConfig = SyncConfig(enable: int, interval: int, pedestal: int, current: int, pulserArg1: int)

  /** The initialiser of tiSyncEventConfig. */
  const INITIAL_SYNC: SyncConfig := SyncConfig(1, 1000, 100, 0, 83)

  /** What survives from one call to the next: the sync configuration, the
      static `doOnce` of rocTrigger and rocTriggerSource. */
  datatype State = State(sync: SyncConfig, doOnce: int, triggerSource: int)

  const INITIAL_STATE: State := State(INITIAL_SYNC, 0, 0)

  /** A state change with the actions that caused it. */
  datatype Outcome = Outcome(state: State, trace: seq<Action>)

  // ---------------------------------------------------------------------
  // rocTrigger

  /** tiReadTriggerBlock writes the TI bank at the cursor and returns its
      length `dCnt`; the cursor is bumped only for a positive length. */
  function ReadTriggerBlock(cursor: int, dCnt: int): (r: Step)
    ensures r.trace == [TiBlockRead]
    ensures dCnt > 0 ==> r.cursor == cursor + dCnt
    ensures dCnt <= 0 ==> r.cursor == cursor
  {
    Step(if dCnt > 0 then cursor + dCnt else cursor, [TiBlockRead])
  }

  /** The pulser part of the sync-event block: count the sync event, then
      re-arm the pulser while fewer than `pedestal` sync events were seen;
      from then on the pulser is stopped when `doOnce` (post-incremented) was
      1, that is on the second such event. */
  function PulserStep(s: State, syncFlag: int): (r: Outcome)
    ensures r.state.sync == s.sync.(current := s.sync.current + (if syncFlag == 1 then 1 else 0))
    ensures r.state.triggerSource == s.triggerSource
    ensures syncFlag != 1 ==> r == Outcome(s, [])
    ensures syncFlag == 1 && s.sync.current + 1 < s.sync.pedestal ==>
              r.trace == [PulserArm(s.sync.pulserArg1)] && r.state.doOnce == s.doOnce
    ensures syncFlag == 1 && s.sync.current + 1 >= s.sync.pedestal ==>
              r.state.doOnce == s.doOnce + 1 &&
              r.trace == (if s.doOnce == 1 then [PulserStop] else [])
  {
    if syncFlag != 1 then Outcome(s, [])
    else
      var sync := s.sync.(current := s.sync.current + 1);
      if sync.current >= sync.pedestal then
        Outcome(State(sync, s.doOnce + 1, s.triggerSource), if s.doOnce == 1 then [PulserStop] else [])
      else
        Outcome(State(sync, s.doOnce, s.triggerSource), [PulserArm(sync.pulserArg1)])
  }

  /** The sync-event block of rocTrigger: the pulser step, then the TI ready
      count `tiPending` is checked and any residual blocks are flushed. */
  function SyncCheck(s: State, syncFlag: int, tiPending: int): (r: Outcome)
    ensures r.state == PulserStep(s, syncFlag).state
    ensures syncFlag != 1 ==> r == Outcome(s, [])
    ensures |PulserStep(s, syncFlag).trace| <= |r.trace|
    ensures r.trace[..|PulserStep(s, syncFlag).trace|] == PulserStep(s, syncFlag).trace
  {
    var p := PulserStep(s, syncFlag);
    if syncFlag == 1 then Outcome(p.state, p.trace + SyncDrain(TiBoard, tiPending)) else p
  }

  /** The drain follows the pulser actions and leaves the state alone; the TI
      is flushed `tiPending` times on a sync event with residual data and not
      at all otherwise. */
  lemma SyncCheckDrains(s: State, syncFlag: int, tiPending: int)
    ensures SyncCheck(s, syncFlag, tiPending).state == PulserStep(s, syncFlag).state
    ensures Count(SyncCheck(s, syncFlag, tiPending).trace, Flush(TiBoard)) ==
              (if syncFlag == 1 && tiPending > 0 then tiPending else 0)
    ensures Count(SyncCheck(s, syncFlag, tiPending).trace, PulserStop) ==
              Count(PulserStep(s, syncFlag).trace, PulserStop)
    ensures forall i :: 0 <= i < |SyncCheck(s, syncFlag, tiPending).trace| ==>
              !IsBank(SyncCheck(s, syncFlag, tiPending).trace[i])
  {
    var p := PulserStep(s, syncFlag);
    if syncFlag == 1 {
      var d := SyncDrain(TiBoard, tiPending);
      CountConcat(p.trace, d, Flush(TiBoard));
      CountConcat(p.trace, d, PulserStop);
      SyncDrainCounts(TiBoard, tiPending, Flush(TiBoard));
      SyncDrainCounts(TiBoard, tiPending, PulserStop);
      assert Count(p.trace, Flush(TiBoard)) == 0;
    }
  }

  // ---------------------------------------------------------------------
  // The pulser over a run of triggers

  /** The state and pulser actions after a run of triggers with the given sync flags. */
  function PulserRun(s: State, flags: seq<int>): (r: Outcome)
    ensures r.state.triggerSource == s.triggerSource
    ensures r.state.sync == s.sync.(current := r.state.sync.current)
    ensures r.state.sync.current >= s.sync.current && r.state.doOnce >= s.doOnce
    decreases |flags|
  {
    if |flags| == 0 then Outcome(s, [])
    else
      var before := PulserRun(s, flags[..|flags| - 1]);
      var last := PulserStep(before.state, flags[|flags| - 1]);
      Outcome(last.state, before.trace + last.trace)
  }

  /** The number of sync-flagged triggers. */
  function SyncCount(flags: seq<int>): (n: nat)
    ensures n <= |flags|
  {
    if |flags| == 0 then 0 else SyncCount(flags[..|flags| - 1]) + (if flags[|flags| - 1] == 1 then 1 else 0)
  }

  /** How many of the sync events number current+1 .. current+k reach `pedestal`. */
  function Saturated(current: int, pedestal: int, k: nat): (n: nat)
    ensures n <= k
  {
    if k == 0 then 0 else Saturated(current, pedestal, k - 1) + (if current + k >= pedestal then 1 else 0)
  }

  /** Closed form: none of the k events reaches the pedestal count when
      current + k < pedestal; otherwise all events from the pedestal count on do. */
  lemma {:induction false} SaturatedClosed(current: int, pedestal: int, k: nat)
    ensures Saturated(current, pedestal, k) ==
              if current + k < pedestal then 0
              else if current + 1 >= pedestal then k
              else current + k - pedestal + 1
  {
    if k > 0 {
      SaturatedClosed(current, pedestal, k - 1);
    }
  }

  /** Over any run: the counter advances by the number of sync events,
      `doOnce` by the number of them at or past the pedestal count, the pulser
      is re-armed on each of the others, and the stop is issued exactly once
      if `doOnce` passes through 1 and never otherwise. */
  lemma {:induction false} PulserRunCounts(s: State, flags: seq<int>)
    ensures PulserRun(s, flags).state.sync == s.sync.(current := s.sync.current + SyncCount(flags))
    ensures PulserRun(s, flags).state.triggerSource == s.triggerSource
    ensures PulserRun(s, flags).state.doOnce ==
              s.doOnce + Saturated(s.sync.current, s.sync.pedestal, SyncCount(flags))
    ensures Count(PulserRun(s, flags).trace, PulserArm(s.sync.pulserArg1)) ==
              SyncCount(flags) - Saturated(s.sync.current, s.sync.pedestal, SyncCount(flags))
    ensures Count(PulserRun(s, flags).trace, PulserStop) ==
              if s.doOnce <= 1 < PulserRun(s, flags).state.doOnce then 1 else 0
    decreases |flags|
  {
    if |flags| > 0 {
      var init := flags[..|flags| - 1];
      var f := flags[|flags| - 1];
      var before := PulserRun(s, init);
      var last := PulserStep(before.state, f);
      var k := SyncCount(init);
      PulserRunCounts(s, init);
      CountConcat(before.trace, last.trace, PulserArm(s.sync.pulserArg1));
      CountConcat(before.trace, last.trace, PulserStop);
      if f == 1 {
        assert SyncCount(flags) == k + 1;
        assert before.state.sync.current == s.sync.current + k;
        if s.sync.current + k + 1 >= s.sync.pedestal {
          assert Saturated(s.sync.current, s.sync.pedestal, k + 1) ==
                 Saturated(s.sync.current, s.sync.pedestal, k) + 1;
          assert Count(last.trace, PulserArm(s.sync.pulserArg1)) == 0;
          assert Count(last.trace, PulserStop) == (if before.state.doOnce == 1 then 1 else 0);
        } else {
          assert Saturated(s.sync.current, s.sync.pedestal, k + 1) ==
                 Saturated(s.sync.current, s.sync.pedestal, k);
          assert last.trace == [PulserArm(s.sync.pulserArg1)];
          assert Count(last.trace, PulserStop) == 0;
        }
      } else {
        assert SyncCount(flags) == k;
        assert last.trace == [];
      }
    }
  }

  /** From the power-up state, the pulser is stopped at most once in any run,
      and it is stopped iff at least two sync events reached the pedestal count. */
  lemma PulserStoppedOnSecondSaturation(flags: seq<int>)
    ensures Count(PulserRun(INITIAL_STATE, flags).trace, PulserStop) ==
              if Saturated(0, INITIAL_SYNC.pedestal, SyncCount(flags)) >= 2 then 1 else 0
  {
    PulserRunCounts(INITIAL_STATE, flags);
  }

  // ---------------------------------------------------------------------
  // rocGo

  /** How the TI block buffer level is left after Go. */
  datatype BufferChoice =
    | Unchanged              // master: the level set at Download stays
    | Fixed(level: int)      // tiUseBroadcastBufferLevel(0); tiSetBlockBufferLevel(level)
    | Broadcast              // tiUseBroadcastBufferLevel(1)

  datatype GoResult = GoResult(blockLevel: int, buffer: BufferChoice, state: State, trace: seq<Action>)

  /** The TI part of rocGo. `tiBlockLevel` and `broadcastBufferLevel` are
      what the TI reports. A slave rejects a buffer level above 10 or a block
      level above 1, falling back to level 1 for both; a master arms the
      chosen pulser, or for TS-input triggers with a pedestal count above 1
      resets the sync counter and arms the pedestal pulser. */
  function Go(role: Role, s: State, tiBlockLevel: int, broadcastBufferLevel: int): (r: GoResult)
    // slave: the reported levels are accepted exactly when valid, else both become 1
    ensures role == Slave ==>
              r.state == s && r.trace == [] &&
              (r.buffer == Broadcast) == (broadcastBufferLevel <= 10 && tiBlockLevel <= 1) &&
              (r.buffer == Broadcast ==> r.blockLevel == tiBlockLevel) &&
              (r.buffer != Broadcast ==> r.blockLevel == 1 && r.buffer == Fixed(1))
    // master: the level is taken as reported; only the TS-input pedestal set-up resets the counter
    ensures role == Master ==>
              r.blockLevel == tiBlockLevel && r.buffer == Unchanged &&
              r.state.doOnce == s.doOnce && r.state.triggerSource == s.triggerSource &&
              (s.triggerSource == 0 && s.sync.pedestal > 1 ==>
                 r.state.sync == s.sync.(current := 0) && r.trace == [PulserArm(s.sync.pulserArg1)]) &&
              (!(s.triggerSource == 0 && s.sync.pedestal > 1) ==> r.state == s)
    // master with TS-input triggers and no pedestal count: nothing is issued
    ensures role == Master && s.triggerSource == 0 && s.sync.pedestal <= 1 ==> r.trace == []
    // master with pulser triggers: random pulser for 1, fixed pulser for 2, nothing for other sources
    ensures role == Master && s.triggerSource != 0 ==>
              r.trace == if s.triggerSource == 1 then [RandomPulserArm(0xf)]
                         else if s.triggerSource == 2 then [PulserArm(100)]
                         else []
  {
    match role
    case Slave =>
      if broadcastBufferLevel > 10 || tiBlockLevel > 1 then GoResult(1, Fixed(1), s, [])
      else GoResult(tiBlockLevel, Broadcast, s, [])
    case Master =>
      if s.triggerSource != 0 then
        GoResult(tiBlockLevel, Unchanged, s,
                 (if s.triggerSource == 1 then [RandomPulserArm(0xf)] else []) +
                 (if s.triggerSource == 2 then [PulserArm(100)] else []))
      else if s.sync.pedestal > 1 then
        GoResult(tiBlockLevel, Unchanged, s.(sync := s.sync.(current := 0)), [PulserArm(s.sync.pulserArg1)])
      else
        GoResult(tiBlockLevel, Unchanged, s, [])
  }

  /** After a master's Go with TS-input triggers and a pedestal count above
      1, the pedestal pulser is armed once by Go and then re-armed on each of
      the next `pedestal - 1` sync events, whatever the counter held before. */
  lemma GoArmsPedestal(s: State, tiBlockLevel: int, broadcastBufferLevel: int, flags: seq<int>)
    requires s.triggerSource == 0 && s.sync.pedestal > 1
    ensures var g := Go(Master, s, tiBlockLevel, broadcastBufferLevel);
            var n := SyncCount(flags);
            Count(g.trace + PulserRun(g.state, flags).trace, PulserArm(s.sync.pulserArg1)) ==
              1 + (if n < s.sync.pedestal then n else s.sync.pedestal - 1)
  {
    var g := Go(Master, s, tiBlockLevel, broadcastBufferLevel);
    PulserRunCounts(g.state, flags);
    SaturatedClosed(0, s.sync.pedestal, SyncCount(flags));
    CountConcat(g.trace, PulserRun(g.state, flags).trace, PulserArm(s.sync.pulserArg1));
  }

  // ---------------------------------------------------------------------
  // rocSetTriggerSource

  /** The TI input matching a trigger source (also used by rocDownload). */
  function TriggerInputFor(source: int): (input: int)
    ensures (input == TI_TRIGGER_TSINPUTS) == (source == 0)
    ensures (input == TI_TRIGGER_PULSER) == (source != 0)
  {
    if source == 0 then TI_TRIGGER_TSINPUTS else TI_TRIGGER_PULSER
  }

  /** rocSetTriggerSource. `primaryFlag` is TIPRIMARYflag (1 once the trigger
      source is live). A slave, or a master already live, ignores the request;
      otherwise the source is stored and the matching TI input is selected. */
  function SetTriggerSource(role: Role, primaryFlag: int, s: State, source: int): (r: Outcome)
    ensures r.state.sync == s.sync && r.state.doOnce == s.doOnce
    ensures role == Master && primaryFlag != 1 ==>
              r.state.triggerSource == source &&
              r.trace == [TriggerInputSelected(if source == 0 then TI_TRIGGER_TSINPUTS else TI_TRIGGER_PULSER)]
    ensures !(role == Master && primaryFlag != 1) ==> r.state == s && r.trace == []
  {
    if role == Master && primaryFlag != 1 then
      Outcome(s.(triggerSource := source), [TriggerInputSelected(TriggerInputFor(source))])
    else
      Outcome(s, [])
  }
}
