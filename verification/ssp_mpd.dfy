/** SSP/MPD readout (ssp_mpd_rol_include.c): the bounded ready poll of
    sspMpd_Trigger with its timeout branch, the two read ceilings, the
    `words_expected` latch, the event-length update of sspMpd_Go, and the
    pedestal-subtraction and SSP-data switches. */
module SspMpd {
  import opened Daq

  const SSP_MPD_SLOT: int := 20
  const SSP_MPD_BANK: int := 10
  /** ssp_timeout_max. */
  const TIMEOUT_MAX: nat := 10000
  /** The initialiser of SSP_MAX_EVENT_LENGTH (bytes). */
  const INITIAL_MAX_EVENT_LENGTH: int := 64000
  /** Bytes per event per unit of block level, as set at Go. */
  const EVENT_BYTES_PER_BLOCK: int := 32000 * 12

  /** Everything the handler keeps between calls: the statics `evt`,
      `words_expected` (int16_t), `tcnt` and `errorCount`, and the globals
      SSP_READOUT, SSP_MAX_EVENT_LENGTH (int32_t) and sspPedSubtractionMode. */
  datatype State = State(evt: int, wordsExpected: int, tcnt: int, errorCount: int,
                         readout: int, maxEventLength: int, pedSubtraction: int)

  const INITIAL_STATE: State := State(1, -1, 0, 0, 1, INITIAL_MAX_EVENT_LENGTH, 0)

  // ---------------------------------------------------------------------
  // The ready poll

  /** How the poll ended: sspBReady calls made and the final ssp_timeout. */
  datatype Poll = Poll(calls: nat, timeout: nat)

  /** `while (sspBReady(slot) == 0 && ssp_timeout < max) ssp_timeout++`,
      from `ssp_timeout == t`. The ready call comes first in the condition, so
      the call numbered `t` is made even when `t == max`. */
  function PollFrom(answers: nat -> int, t: nat): (p: Poll)
    requires t <= TIMEOUT_MAX
    ensures t <= p.timeout <= TIMEOUT_MAX
    ensures p.calls == p.timeout + 1
    ensures forall j :: t <= j < p.timeout ==> answers(j) == 0
    ensures p.timeout < TIMEOUT_MAX ==> answers(p.timeout) != 0
    decreases TIMEOUT_MAX - t
  {
    if answers(t) == 0 && t < TIMEOUT_MAX then PollFrom(answers, t + 1) else Poll(t + 1, t)
  }

  function PollReady(answers: nat -> int): Poll
  {
    PollFrom(answers, 0)
  }

  /** At most 10001 calls, and the timeout branch is taken iff the first
      10000 answers were all 0 (the answer to the last call is not looked at). */
  lemma PollTimeoutIff(answers: nat -> int)
    ensures PollReady(answers).calls <= TIMEOUT_MAX + 1
    ensures (PollReady(answers).timeout == TIMEOUT_MAX) == (forall j :: 0 <= j < TIMEOUT_MAX ==> answers(j) == 0)
  {
    var p := PollReady(answers);
    if p.timeout < TIMEOUT_MAX {
      assert answers(p.timeout) != 0;
    }
  }

  // ---------------------------------------------------------------------
  // sspMpd_Trigger

  /** The hardware answers of one trigger: the poll answers, the word count
      `wc` of sspGetEbStatus and the length sspReadBlock returns. */
  datatype Oracle = Oracle(answers: nat -> int, wc: uint32, dCnt: int)

  datatype Result = Result(state: State, step: Step)

  /** The ceiling of the normal read, SSP_MAX_EVENT_LENGTH >> 2 (an
      arithmetic shift of an int32_t, so rounding down). */
  function ReadCeiling(maxEventLength: int): (words: int)
    ensures 4 * words <= maxEventLength < 4 * words + 4
  {
    maxEventLength / 4
  }

  /** The `words_expected` latch: nothing for the first four events, then
      the first read length is stored (as int16_t) while the latch still holds -1. */
  function Latch(evt: int, wordsExpected: int, dCnt: int): (w: int)
    ensures evt < 5 ==> w == wordsExpected
    ensures evt >= 5 && wordsExpected == -1 ==> w == Int16(dCnt)
    ensures wordsExpected != -1 ==> w == wordsExpected
  {
    if evt < 5 then wordsExpected
    else if wordsExpected == -1 then Int16(dCnt)
    else wordsExpected
  }

  /** sspMpd_Trigger: one bank around one block read, and on a timely
      answer with SSP_READOUT clear one hand-written word. Each call counts
      one event, counts an error exactly on a timeout, and leaves the
      configuration (SSP_READOUT, SSP_MAX_EVENT_LENGTH, the pedestal mode)
      alone. */
  function Trigger(s: State, cursor: int, o: Oracle): (r: Result)
    ensures r.state.evt == s.evt + 1
    ensures r.state.errorCount == s.errorCount + (if PollReady(o.answers).timeout == TIMEOUT_MAX then 1 else 0)
    ensures r.state.readout == s.readout && r.state.maxEventLength == s.maxEventLength &&
            r.state.pedSubtraction == s.pedSubtraction
    ensures 3 <= |r.step.trace| <= 4
    ensures r.step.trace[0] == BankOpen(SSP_MPD_BANK, 0) && r.step.trace[|r.step.trace| - 1] == BankClose
    ensures r.step.trace[1].BlockRead?
    ensures |r.step.trace| == 4 ==> r.step.trace[2].WordWritten?
  {
    var p := PollReady(o.answers);
    var open := [BankOpen(SSP_MPD_BANK, 0)];
    if p.timeout == TIMEOUT_MAX then
      var read := BlockRead(SSP_MPD_SLOT, o.wc, 1);
      Result(s.(evt := s.evt + 1, tcnt := s.tcnt + 1, errorCount := s.errorCount + 1),
             Step(if o.dCnt > 0 then cursor + o.dCnt else cursor, open + [read, BankClose]))
    else
      var read := BlockRead(SSP_MPD_SLOT, ReadCeiling(s.maxEventLength), 1);
      var s' := s.(evt := s.evt + 1, wordsExpected := Latch(s.evt, s.wordsExpected, o.dCnt));
      if s.readout != 0 then
        Result(s', Step(cursor + o.dCnt, open + [read, BankClose]))
      else
        Result(s', Step(cursor + 1, open + [read, WordWritten(LSwap(p.timeout as bv32)), BankClose]))
  }

  /** Timeout: the words the event builder reports are requested, the
      cursor moves by dCnt only when it is positive, the error count rises
      by exactly one and the latch is left alone. */
  lemma TriggerTimeout(s: State, cursor: int, o: Oracle)
    requires forall j :: 0 <= j < TIMEOUT_MAX ==> o.answers(j) == 0
    ensures var r := Trigger(s, cursor, o);
            BlockRead(SSP_MPD_SLOT, o.wc, 1) in r.step.trace &&
            r.step.cursor == cursor + (if o.dCnt > 0 then o.dCnt else 0) &&
            r.state == s.(evt := s.evt + 1, tcnt := s.tcnt + 1, errorCount := s.errorCount + 1)
  {
    PollTimeoutIff(o.answers);
  }

  /** Ready in time: the read ceiling is SSP_MAX_EVENT_LENGTH / 4, the
      error count is unchanged and the latch is updated. */
  lemma TriggerReady(s: State, cursor: int, o: Oracle)
    requires exists j :: 0 <= j < TIMEOUT_MAX && o.answers(j) != 0
    ensures var r := Trigger(s, cursor, o);
            BlockRead(SSP_MPD_SLOT, ReadCeiling(s.maxEventLength), 1) in r.step.trace &&
            r.state == s.(evt := s.evt + 1, wordsExpected := Latch(s.evt, s.wordsExpected, o.dCnt))
  {
    PollTimeoutIff(o.answers);
  }

  /** Ready in time with SSP_READOUT set: the cursor moves by dCnt whatever
      its sign and no word is written by hand. */
  lemma TriggerReadyForwards(s: State, cursor: int, o: Oracle)
    requires exists j :: 0 <= j < TIMEOUT_MAX && o.answers(j) != 0
    requires s.readout != 0
    ensures Trigger(s, cursor, o).step.cursor == cursor + o.dCnt
    ensures Trigger(s, cursor, o).step.trace ==
              [BankOpen(SSP_MPD_BANK, 0), BlockRead(SSP_MPD_SLOT, ReadCeiling(s.maxEventLength), 1), BankClose]
  {
    PollTimeoutIff(o.answers);
  }

  /** Ready in time with SSP_READOUT clear: exactly one word, the swapped
      timeout count, is written and the cursor moves past it. */
  lemma TriggerReadyWritesOneWord(s: State, cursor: int, o: Oracle)
    requires exists j :: 0 <= j < TIMEOUT_MAX && o.answers(j) != 0
    requires s.readout == 0
    ensures Trigger(s, cursor, o).step.cursor == cursor + 1
    ensures Trigger(s, cursor, o).step.trace ==
              [BankOpen(SSP_MPD_BANK, 0), BlockRead(SSP_MPD_SLOT, ReadCeiling(s.maxEventLength), 1),
               WordWritten(LSwap(PollReady(o.answers).timeout as bv32)), BankClose]
  {
    PollTimeoutIff(o.answers);
  }

  /** Every path opens the one bank first and closes it last, with no other bank action. */
  lemma TriggerFramed(s: State, cursor: int, o: Oracle)
    ensures Framed(Trigger(s, cursor, o).step.trace, false)
    ensures Count(Trigger(s, cursor, o).step.trace, BankOpen(SSP_MPD_BANK, 0)) == 1
    ensures Count(Trigger(s, cursor, o).step.trace, BankClose) == 1
  {
    var t := Trigger(s, cursor, o).step.trace;
    var body := t[1..|t| - 1];
    assert t == [BankOpen(SSP_MPD_BANK, 0)] + body + [BankClose];
    assert body[0] == t[1];
    assert |body| == 2 ==> body[1] == t[2];
    OneBankFramed(SSP_MPD_BANK, 0, body);
    OneBankCounts(SSP_MPD_BANK, 0, body);
  }

  // ---------------------------------------------------------------------
  // The latch over a run of triggers

  /** The state after a run of triggers (the cursor is not followed). */
  function Run(s: State, oracles: seq<Oracle>): (r: State)
    ensures r.evt == s.evt + |oracles|
    ensures r.readout == s.readout && r.maxEventLength == s.maxEventLength &&
            r.pedSubtraction == s.pedSubtraction
    decreases |oracles|
  {
    if |oracles| == 0 then s else Trigger(Run(s, oracles[..|oracles| - 1]), 0, oracles[|oracles| - 1]).state
  }

  /** Over any run: `evt` counts the triggers, the error count never falls,
      the latch is never touched while `evt` stays below 5, and once it holds
      a value other than -1 it keeps it for good. */
  lemma {:induction false} RunLatch(s: State, oracles: seq<Oracle>)
    ensures Run(s, oracles).evt == s.evt + |oracles|
    ensures Run(s, oracles).errorCount >= s.errorCount
    ensures s.evt + |oracles| <= 5 ==> Run(s, oracles).wordsExpected == s.wordsExpected
    ensures s.wordsExpected != -1 ==> Run(s, oracles).wordsExpected == s.wordsExpected
    ensures Run(s, oracles).readout == s.readout && Run(s, oracles).maxEventLength == s.maxEventLength
    decreases |oracles|
  {
    if |oracles| > 0 {
      RunLatch(s, oracles[..|oracles| - 1]);
    }
  }

  /** Once latched, the value is the int16_t of the length read at the first
      in-time trigger numbered 5 or later. */
  lemma LatchedValue(s: State, cursor: int, o: Oracle)
    requires s.evt >= 5 && s.wordsExpected == -1
    requires exists j :: 0 <= j < TIMEOUT_MAX && o.answers(j) != 0
    ensures Trigger(s, cursor, o).state.wordsExpected == Int16(o.dCnt)
  {
    PollTimeoutIff(o.answers);
  }

  // ---------------------------------------------------------------------
  // sspMpd_Go, switches and Download

  /** sspMpd_Go: SSP_MAX_EVENT_LENGTH = 32000 * 12 * BLOCKLEVEL with an
      unsigned BLOCKLEVEL, so the product is taken modulo 2^32 and then
      stored in an int32_t. */
  function Go(s: State, tiBlockLevel: uint32): (r: State)
    ensures r == s.(maxEventLength := r.maxEventLength)
    ensures (r.maxEventLength - EVENT_BYTES_PER_BLOCK * tiBlockLevel) % TWO32 == 0
    ensures EVENT_BYTES_PER_BLOCK * tiBlockLevel < 0x8000_0000 ==>
              r.maxEventLength == EVENT_BYTES_PER_BLOCK * tiBlockLevel
  {
    s.(maxEventLength := Int32(Uint32(EVENT_BYTES_PER_BLOCK * tiBlockLevel)))
  }

  /** After Go with a block level whose byte count fits, the normal read
      asks for 96000 words per unit of block level. */
  lemma GoCeiling(s: State, tiBlockLevel: uint32)
    requires EVENT_BYTES_PER_BLOCK * tiBlockLevel < 0x8000_0000
    ensures ReadCeiling(Go(s, tiBlockLevel).maxEventLength) == 96000 * tiBlockLevel
  {
  }

  /** sspSetPedSubtractionMode: ignored once the trigger source is live
      (TIPRIMARYflag == 1), otherwise the mode becomes 1 or 0. */
  function SetPedSubtractionMode(primaryFlag: int, s: State, enable: int): (r: State)
    ensures r == s.(pedSubtraction := r.pedSubtraction)
    ensures primaryFlag == 1 ==> r == s
    ensures primaryFlag != 1 ==> (r.pedSubtraction == 1) == (enable != 0) && (r.pedSubtraction == 0) == (enable == 0)
  {
    if primaryFlag == 1 then s else s.(pedSubtraction := if enable != 0 then 1 else 0)
  }

  /** The user string that asks for pedestal subtraction. */
  const PED_SUB_STRING: string := "SSPPedSub"

  /** sspMpd_Download: the mode asked for is 1 iff the user string is
      exactly "SSPPedSub", and it goes through the guarded setter. */
  function Download(primaryFlag: int, s: State, usrString: string): (r: State)
    ensures primaryFlag == 1 ==> r == s
    ensures primaryFlag != 1 ==> r == s.(pedSubtraction := if usrString == PED_SUB_STRING then 1 else 0)
  {
    SetPedSubtractionMode(primaryFlag, s, if usrString == PED_SUB_STRING then 1 else 0)
  }

  /** setSSPData: SSP_READOUT becomes 1 or 0. */
  function SetSspData(s: State, enable: int): (r: State)
    ensures r == s.(readout := r.readout)
    ensures (r.readout == 1) == (enable != 0) && (r.readout == 0) == (enable == 0)
  {
    s.(readout := if enable != 0 then 1 else 0)
  }

  /** The handler issues no TI action. */
  lemma TriggerLeavesTi(s: State, cursor: int, o: Oracle)
    ensures forall a: Action :: TiAction(a) ==> Count(Trigger(s, cursor, o).step.trace, a) == 0
  {
    var t := Trigger(s, cursor, o).step.trace;
    forall a: Action | TiAction(a)
      ensures Count(t, a) == 0
    {
      assert a !in t;
      CountAbsent(t, a);
    }
  }
}
