/** SSP/MAROC readout (ssp_maroc_rol_include.c): the bounded ready poll, the
    not-ready counter and the unconditional block read of sspMaroc_Trigger. */
module SspMaroc {
  import opened Daq

  const SSP_MAROC_BANK: int := 18
  const SSP_MAROC_SLOT: int := 13
  /** Tries of the ready poll. */
  const POLL_LIMIT: nat := 100000
  /** Word ceiling handed to sspReadBlock. */
  const READ_CEILING: int := 0x10000

  /** How a poll ended: the number of sspBReady calls and the last answer (gbready). */
  datatype Poll = Poll(calls: nat, ready: int)

  /** The poll from try `i` on: `answers(j)` is what the j-th call of
      sspBReady returns; the loop stops at the first nonzero answer or after
      the last try. */
  function PollFrom(answers: nat -> int, i: nat): (p: Poll)
    requires i < POLL_LIMIT
    ensures i < p.calls <= POLL_LIMIT
    ensures p.ready == answers(p.calls - 1)
    ensures forall j :: i <= j < p.calls - 1 ==> answers(j) == 0
    ensures p.ready == 0 ==> p.calls == POLL_LIMIT
    decreases POLL_LIMIT - i
  {
    var g := answers(i);
    if g != 0 || i + 1 == POLL_LIMIT then Poll(i + 1, g) else PollFrom(answers, i + 1)
  }

  function PollReady(answers: nat -> int): Poll
  {
    PollFrom(answers, 0)
  }

  /** The poll ends not ready iff all 100000 answers were 0; when ready, it
      stopped at the first nonzero answer. */
  lemma PollReadyIff(answers: nat -> int)
    ensures var p := PollReady(answers);
            (p.ready == 0) == (forall j :: 0 <= j < POLL_LIMIT ==> answers(j) == 0) &&
            (p.ready != 0 ==> forall j :: 0 <= j < p.calls - 1 ==> answers(j) == 0)
  {
    var p := PollReady(answers);
    if p.ready != 0 {
      assert answers(p.calls - 1) != 0;
    }
  }

  /** ssp_not_ready_errors[SSP_MAROC_SLOT], the only entry the handler uses. */
  datatype State = State(notReady: int)

  /** The hardware answers of one trigger: the poll answers and the length sspReadBlock returns. */
  datatype Oracle = Oracle(answers: nat -> int, len: int)

  datatype Result = Result(state: State, step: Step, dCnt: int)

  /** sspMaroc_Trigger: the bank carries the global block level as its
      number; the not-ready counter grows only when the poll saw no ready;
      the block is read whatever the poll said and the cursor moves by the
      returned length. */
  function Trigger(s: State, cursor: int, blockLevel: int, o: Oracle): (r: Result)
    ensures r.state.notReady == s.notReady + (if PollReady(o.answers).ready == 0 then 1 else 0)
    ensures r.step.cursor == cursor + o.len
    ensures r.dCnt == o.len
    ensures r.step.trace == [BankOpen(SSP_MAROC_BANK, blockLevel), BlockRead(SSP_MAROC_SLOT, READ_CEILING, 1), BankClose]
  {
    var p := PollReady(o.answers);
    var s' := if p.ready == 0 then s.(notReady := s.notReady + 1) else s;
    Result(s', Step(cursor + o.len, [BankOpen(SSP_MAROC_BANK, blockLevel)] +
                                    [BlockRead(SSP_MAROC_SLOT, READ_CEILING, 1)] + [BankClose]), o.len)
  }

  /** The not-ready counter rises by exactly one iff no poll answer was
      nonzero, and the handler's one bank is framed. */
  lemma TriggerCounts(s: State, cursor: int, blockLevel: int, o: Oracle)
    ensures var r := Trigger(s, cursor, blockLevel, o);
            (r.state.notReady == s.notReady + 1) == (forall j :: 0 <= j < POLL_LIMIT ==> o.answers(j) == 0) &&
            (r.state.notReady == s.notReady) == (exists j :: 0 <= j < POLL_LIMIT && o.answers(j) != 0)
    ensures Framed(Trigger(s, cursor, blockLevel, o).step.trace, false)
  {
    PollReadyIff(o.answers);
    OneBankFramed(SSP_MAROC_BANK, blockLevel, [BlockRead(SSP_MAROC_SLOT, READ_CEILING, 1)]);
    assert Trigger(s, cursor, blockLevel, o).step.trace ==
           [BankOpen(SSP_MAROC_BANK, blockLevel)] + [BlockRead(SSP_MAROC_SLOT, READ_CEILING, 1)] + [BankClose];
  }

  /** The handler issues no TI action. */
  lemma TriggerLeavesTi(s: State, cursor: int, blockLevel: int, o: Oracle)
    ensures forall a: Action :: TiAction(a) ==> Count(Trigger(s, cursor, blockLevel, o).step.trace, a) == 0
  {
    var t := Trigger(s, cursor, blockLevel, o).step.trace;
    forall a: Action | TiAction(a)
      ensures Count(t, a) == 0
    {
      assert a !in t;
      CountAbsent(t, a);
    }
  }
}
