/** The crate readout list (ti_list.c) around the module handlers: rocTrigger
    reads the TI trigger block first, runs the handlers the list was built
    with (FADC250, SSP/MPD, SSP/MAROC), and ends with the TI sync check; rocGo
    runs the TI set-up and then each module's Go. */
module Crate {
  import opened Daq
  import Ti
  import Fadc250
  import SspMpd
  import SspMaroc

  /** What the list was compiled with: the TI role (TI_MASTER / TI_SLAVE)
      and USE_FA250, USE_SSP_MPD, USE_SSP_MAROC. */
  datatype Build = Build(role: Ti.Role, fa250: bool, mpd: bool, maroc: bool)

  /** What the list keeps between calls: the TI state, the FADC set-up, the
      MPD and MAROC handler state and the global blockLevel. */
  datatype State = State(ti: Ti.State, fadc: Fadc250.Config, mpd: SspMpd.State,
                         maroc: SspMaroc.State, blockLevel: int)

  /** The hardware answers of one trigger: the TI block length, the TI sync
      flag (read by fa250_Trigger and by rocTrigger, the same register in one
      trigger), the TI ready count at the sync check, and each handler's
      answers. */
  datatype Oracle = Oracle(tiDCnt: int, syncFlag: int, tiPending: int,
                           fadc: Fadc250.Oracle, mpd: SspMpd.Oracle, maroc: SspMaroc.Oracle)

  datatype Result = Result(state: State, step: Step)

  /** The actions of one rocTrigger, by phase. */
  datatype Phases = Phases(ti: Step, fadc: Step, mpd: SspMpd.Result, maroc: SspMaroc.Result, sync: Ti.Outcome)

  /** Each phase starts at the cursor the previous one left. The TI block
      is always read; a module that is not built issues nothing and leaves
      the cursor and its state where they were; the sync check works on the
      TI state. */
  function TriggerPhases(b: Build, s: State, cursor: int, o: Oracle): (p: Phases)
    ensures p.ti.trace == [TiBlockRead]
    ensures !b.fa250 ==> p.fadc == Step(p.ti.cursor, [])
    ensures !b.mpd ==> p.mpd == SspMpd.Result(s.mpd, Step(p.fadc.cursor, []))
    ensures !b.maroc ==> p.maroc.state == s.maroc && p.maroc.step == Step(p.mpd.step.cursor, [])
    ensures p.sync == Ti.SyncCheck(s.ti, o.syncFlag, o.tiPending)
  {
    var ti := Ti.ReadTriggerBlock(cursor, o.tiDCnt);
    var fa := if b.fa250 then Fadc250.Trigger(s.fadc, ti.cursor, o.syncFlag, o.fadc)
              else Step(ti.cursor, []);
    var mpd := if b.mpd then SspMpd.Trigger(s.mpd, fa.cursor, o.mpd)
               else SspMpd.Result(s.mpd, Step(fa.cursor, []));
    var maroc := if b.maroc then SspMaroc.Trigger(s.maroc, mpd.step.cursor, s.blockLevel, o.maroc)
                 else SspMaroc.Result(s.maroc, Step(mpd.step.cursor, []), 0);
    Phases(ti, fa, mpd, maroc, Ti.SyncCheck(s.ti, o.syncFlag, o.tiPending))
  }

  /** rocTrigger: the phases' actions in order, the cursor where the last
      handler left it. */
  function RocTrigger(b: Build, s: State, cursor: int, o: Oracle): (r: Result)
    ensures |r.step.trace| >= 1 && r.step.trace[0] == TiBlockRead
    ensures r.state.fadc == s.fadc && r.state.blockLevel == s.blockLevel
    ensures r.state.ti == Ti.PulserStep(s.ti, o.syncFlag).state
    ensures !b.mpd ==> r.state.mpd == s.mpd
    ensures !b.maroc ==> r.state.maroc == s.maroc
  {
    var p := TriggerPhases(b, s, cursor, o);
    Result(State(p.sync.state, s.fadc, p.mpd.state, p.maroc.state, s.blockLevel),
           Step(p.maroc.step.cursor, p.ti.trace + p.fadc.trace + p.mpd.step.trace + p.maroc.step.trace + p.sync.trace))
  }

  lemma CountFive(t1: seq<Action>, t2: seq<Action>, t3: seq<Action>, t4: seq<Action>, t5: seq<Action>, a: Action)
    ensures Count(t1 + t2 + t3 + t4 + t5, a) ==
              Count(t1, a) + Count(t2, a) + Count(t3, a) + Count(t4, a) + Count(t5, a)
  {
    CountConcat(t1, t2, a);
    CountConcat(t1 + t2, t3, a);
    CountConcat(t1 + t2 + t3, t4, a);
    CountConcat(t1 + t2 + t3 + t4, t5, a);
  }

  /** No module handler issues a TI action. */
  lemma HandlersLeaveTi(b: Build, s: State, cursor: int, o: Oracle, a: Action)
    requires TiAction(a)
    ensures var p := TriggerPhases(b, s, cursor, o);
            Count(p.fadc.trace, a) == 0 && Count(p.mpd.step.trace, a) == 0 && Count(p.maroc.step.trace, a) == 0
  {
    var p := TriggerPhases(b, s, cursor, o);
    if b.fa250 {
      Fadc250.TriggerLeavesTi(s.fadc, p.ti.cursor, o.syncFlag, o.fadc);
    }
    if b.mpd {
      SspMpd.TriggerLeavesTi(s.mpd, p.fadc.cursor, o.mpd);
    }
    if b.maroc {
      SspMaroc.TriggerLeavesTi(s.maroc, p.mpd.step.cursor, s.blockLevel, o.maroc);
    }
  }

  /** A TI action in a trigger comes from the TI block read or from the
      sync check, never from a module handler. */
  lemma RocTriggerTiCount(b: Build, s: State, cursor: int, o: Oracle, a: Action)
    requires TiAction(a)
    ensures Count(RocTrigger(b, s, cursor, o).step.trace, a) ==
              Count([TiBlockRead], a) + Count(Ti.SyncCheck(s.ti, o.syncFlag, o.tiPending).trace, a)
  {
    var p := TriggerPhases(b, s, cursor, o);
    assert RocTrigger(b, s, cursor, o).step.trace ==
           p.ti.trace + p.fadc.trace + p.mpd.step.trace + p.maroc.step.trace + p.sync.trace;
    CountFive(p.ti.trace, p.fadc.trace, p.mpd.step.trace, p.maroc.step.trace, p.sync.trace, a);
    HandlersLeaveTi(b, s, cursor, o, a);
  }

  /** The sync check never reads a trigger block. */
  lemma SyncCheckReadsNoBlock(s: Ti.State, syncFlag: int, tiPending: int)
    ensures Count(Ti.SyncCheck(s, syncFlag, tiPending).trace, TiBlockRead) == 0
  {
    var p := Ti.PulserStep(s, syncFlag);
    assert TiBlockRead !in p.trace;
    CountAbsent(p.trace, TiBlockRead);
    if syncFlag == 1 {
      CountConcat(p.trace, SyncDrain(TiBoard, tiPending), TiBlockRead);
      SyncDrainCounts(TiBoard, tiPending, TiBlockRead);
    }
  }

  /** The TI trigger block is read first and exactly once, before any
      handler runs. */
  lemma RocTriggerReadsTiFirst(b: Build, s: State, cursor: int, o: Oracle)
    ensures var t := RocTrigger(b, s, cursor, o).step.trace;
            |t| > 0 && t[0] == TiBlockRead && Count(t, TiBlockRead) == 1
  {
    RocTriggerTiCount(b, s, cursor, o, TiBlockRead);
    SyncCheckReadsNoBlock(s.ti, o.syncFlag, o.tiPending);
    CountSingle(TiBlockRead, TiBlockRead);
  }

  /** A sync event adds exactly one to the sync counter and any other trigger
      leaves it; the TI is flushed only by its own sync check, once per
      residual block; and only the pulser step stops the pulser. */
  lemma RocTriggerSync(b: Build, s: State, cursor: int, o: Oracle)
    ensures var r := RocTrigger(b, s, cursor, o);
            r.state.ti.sync.current == s.ti.sync.current + (if o.syncFlag == 1 then 1 else 0) &&
            r.state.ti.doOnce == Ti.PulserStep(s.ti, o.syncFlag).state.doOnce
    ensures Count(RocTrigger(b, s, cursor, o).step.trace, Flush(TiBoard)) ==
              (if o.syncFlag == 1 && o.tiPending > 0 then o.tiPending else 0)
    ensures Count(RocTrigger(b, s, cursor, o).step.trace, PulserStop) ==
              Count(Ti.PulserStep(s.ti, o.syncFlag).trace, PulserStop)
  {
    Ti.SyncCheckDrains(s.ti, o.syncFlag, o.tiPending);
    RocTriggerTiCount(b, s, cursor, o, Flush(TiBoard));
    RocTriggerTiCount(b, s, cursor, o, PulserStop);
    CountSingle(TiBlockRead, Flush(TiBoard));
    CountSingle(TiBlockRead, PulserStop);
  }

  /** Every bank a trigger writes is opened and closed in pairs, never nested. */
  lemma RocTriggerFramed(b: Build, s: State, cursor: int, o: Oracle)
    ensures Framed(RocTrigger(b, s, cursor, o).step.trace, false)
  {
    var p := TriggerPhases(b, s, cursor, o);
    NoBanksFramed(p.ti.trace);
    if b.fa250 {
      Fadc250.TriggerDrains(s.fadc, p.ti.cursor, o.syncFlag, o.fadc);
    } else {
      NoBanksFramed(p.fadc.trace);
    }
    if b.mpd {
      SspMpd.TriggerFramed(s.mpd, p.fadc.cursor, o.mpd);
    } else {
      NoBanksFramed(p.mpd.step.trace);
    }
    if b.maroc {
      SspMaroc.TriggerCounts(s.maroc, p.mpd.step.cursor, s.blockLevel, o.maroc);
    } else {
      NoBanksFramed(p.maroc.step.trace);
    }
    Ti.SyncCheckDrains(s.ti, o.syncFlag, o.tiPending);
    NoBanksFramed(p.sync.trace);
    FramedAppend(p.ti.trace, p.fadc.trace, false);
    FramedAppend(p.ti.trace + p.fadc.trace, p.mpd.step.trace, false);
    FramedAppend(p.ti.trace + p.fadc.trace + p.mpd.step.trace, p.maroc.step.trace, false);
    FramedAppend(p.ti.trace + p.fadc.trace + p.mpd.step.trace + p.maroc.step.trace, p.sync.trace, false);
  }

  /** With the MAROC handler built in, its bank carries the global blockLevel. */
  lemma RocTriggerMarocBank(b: Build, s: State, cursor: int, o: Oracle)
    requires b.maroc
    ensures BankOpen(SspMaroc.SSP_MAROC_BANK, s.blockLevel) in RocTrigger(b, s, cursor, o).step.trace
  {
    var p := TriggerPhases(b, s, cursor, o);
    var t := RocTrigger(b, s, cursor, o).step.trace;
    assert p.maroc.step.trace[0] == BankOpen(SspMaroc.SSP_MAROC_BANK, s.blockLevel);
    assert t[|p.ti.trace + p.fadc.trace + p.mpd.step.trace|] == p.maroc.step.trace[0];
  }

  // ---------------------------------------------------------------------
  // rocGo

  datatype GoResult = GoResult(state: State, buffer: Ti.BufferChoice, trace: seq<Action>)

  /** rocGo. `tiBlockLevel` is what tiGetCurrentBlockLevel reports (read by
      rocGo and again by each module's Go), `bufferLevel` the broadcast
      buffer level, `ptw` the window width of the first FADC. fa250_Go
      stores the block level it reads in the global blockLevel, so on a slave
      the fall-back to 1 only sticks when the FADC handler is not built. */
  function RocGo(b: Build, s: State, tiBlockLevel: int, bufferLevel: int, ptw: uint32): (r: GoResult)
    ensures r.state.maroc == s.maroc
    ensures r.state.ti == Ti.Go(b.role, s.ti, tiBlockLevel, bufferLevel).state
    ensures r.trace == Ti.Go(b.role, s.ti, tiBlockLevel, bufferLevel).trace
    ensures !b.fa250 ==> r.state.fadc == s.fadc
    ensures b.fa250 ==> r.state.fadc.nfadc == s.fadc.nfadc
    ensures !b.mpd ==> r.state.mpd == s.mpd
  {
    var ti := Ti.Go(b.role, s.ti, tiBlockLevel, bufferLevel);
    var level := if b.fa250 then tiBlockLevel else ti.blockLevel;
    var fadc := if b.fa250 then Fadc250.Go(s.fadc.nfadc, tiBlockLevel, ptw) else s.fadc;
    var mpd := if b.mpd then SspMpd.Go(s.mpd, Uint32(tiBlockLevel)) else s.mpd;
    GoResult(State(ti.state, fadc, mpd, s.maroc, level), ti.buffer, ti.trace)
  }

  /** The block level the triggers use after Go: the TI's report when the
      FADC handler is built in, whatever the slave check decided; otherwise
      the slave check's choice. The FADC and MPD sizes follow the TI's
      report either way. */
  lemma RocGoBlockLevel(b: Build, s: State, tiBlockLevel: int, bufferLevel: int, ptw: uint32)
    ensures var r := RocGo(b, s, tiBlockLevel, bufferLevel, ptw);
            var invalid := b.role == Ti.Slave && (bufferLevel > 10 || tiBlockLevel > 1);
            (b.fa250 ==> r.state.blockLevel == tiBlockLevel) &&
            (!b.fa250 && invalid ==> r.state.blockLevel == 1) &&
            (!b.fa250 && !invalid ==> r.state.blockLevel == tiBlockLevel) &&
            (invalid ==> r.buffer == Ti.Fixed(1))
    ensures var r := RocGo(b, s, tiBlockLevel, bufferLevel, ptw);
            b.fa250 && 0 <= tiBlockLevel && Fadc250.MaxWordsExact(s.fadc.nfadc, tiBlockLevel, ptw) < TWO32 ==>
              r.state.fadc.maxWords == Fadc250.CrateBlockWords(s.fadc.nfadc, tiBlockLevel, ptw)
    ensures var r := RocGo(b, s, tiBlockLevel, bufferLevel, ptw);
            b.mpd && 0 <= tiBlockLevel && SspMpd.EVENT_BYTES_PER_BLOCK * tiBlockLevel < 0x8000_0000 ==>
              SspMpd.ReadCeiling(r.state.mpd.maxEventLength) == 96000 * tiBlockLevel
  {
    if b.mpd && 0 <= tiBlockLevel && SspMpd.EVENT_BYTES_PER_BLOCK * tiBlockLevel < 0x8000_0000 {
      assert Uint32(tiBlockLevel) == tiBlockLevel;
      SspMpd.GoCeiling(s.mpd, tiBlockLevel);
    }
  }

  /** On a slave with the FADC and MAROC handlers built in, a reported block
      level of 2 is rejected by the TI check, which falls back to buffer level
      1, yet the next MAROC bank is numbered 2. */
  lemma SlaveFallbackSkipsModules(s: State, ptw: uint32, cursor: int, o: Oracle)
    ensures var b := Build(Ti.Slave, true, false, true);
            var g := RocGo(b, s, 2, 1, ptw);
            g.buffer == Ti.Fixed(1) &&
            BankOpen(SspMaroc.SSP_MAROC_BANK, 2) in RocTrigger(b, g.state, cursor, o).step.trace
  {
    var b := Build(Ti.Slave, true, false, true);
    RocGoBlockLevel(b, s, 2, 1, ptw);
    RocTriggerMarocBank(b, RocGo(b, s, 2, 1, ptw).state, cursor, o);
  }
}
