/** FADC250 readout (fa250_rol_include.c): the worst-case block size fixed
    at Go, the single-board / token-passing choice, and the per-trigger
    handler with its scan check, block-error recovery and sync-event drain. */
module Fadc250 {
  import opened Daq

  const FADC_BANK: int := 3
  /** Channels per FADC250. */
  const NCHAN: nat := 16

  /** Run configuration frozen at Go: number of boards and MAXFADCWORDS. */
  datatype Config = Config(nfadc: nat, maxWords: uint32)

  // ---------------------------------------------------------------------
  // Download: readout strategy

  /** Download enables multiblock (token-passing) readout unless exactly one board is present. */
  function MultiBlockEnabled(nfadc: nat): bool
  {
    nfadc != 1
  }

  /** The transfer type handed to faReadBlock: 1 for a single board, 2 for token passing. */
  function ReadoutType(nfadc: nat): (roType: int)
    ensures roType == 1 <==> nfadc == 1
    ensures roType == 2 <==> nfadc != 1
  {
    if nfadc == 1 then 1 else 2
  }

  /** The trigger's transfer type agrees with the multiblock setting made at Download. */
  lemma ReadoutTypeMatchesDownload(nfadc: nat)
    ensures ReadoutType(nfadc) == 1 <==> !MultiBlockEnabled(nfadc)
    ensures ReadoutType(nfadc) == 2 <==> MultiBlockEnabled(nfadc)
  {
  }

  // ---------------------------------------------------------------------
  // Go: worst-case block size

  /** Words of one channel in processing mode 1: a channel header and the
      window samples packed two per word (the window size is halved rounding down). */
  function ChannelWords(ptw: nat): nat
  {
    1 + ptw / 2
  }

  /** Words of one event of `nchan` channels: event header, second header,
      two timestamp words, then one record per channel. */
  function EventWords(nchan: nat, ptw: nat): nat
  {
    if nchan == 0 then 4 else EventWords(nchan - 1, ptw) + ChannelWords(ptw)
  }

  /** Words of one board's block of `events` events: block header, trailer and
      two filler words, the events, and 18 scaler words (16 channels with
      header and trailer). */
  function BoardBlockWords(events: nat, ptw: nat): nat
  {
    if events == 0 then 4 + 18 else BoardBlockWords(events - 1, ptw) + EventWords(NCHAN, ptw)
  }

  /** Words of one block from `nfadc` boards. */
  function CrateBlockWords(nfadc: nat, blockLevel: nat, ptw: nat): nat
  {
    if nfadc == 0 then 0 else CrateBlockWords(nfadc - 1, blockLevel, ptw) + BoardBlockWords(blockLevel, ptw)
  }

  /** The MAXFADCWORDS expression of fa250_Go, in exact arithmetic. */
  function MaxWordsExact(nfadc: nat, blockLevel: int, ptw: nat): int
  {
    nfadc * (4 + blockLevel * (4 + 16 * (1 + (ptw / 2))) + 18)
  }

  lemma MulSucc(k: nat, b: nat)
    ensures (k + 1) * b == k * b + b
  {
  }

  lemma {:induction false} EventWordsClosed(nchan: nat, ptw: nat)
    ensures EventWords(nchan, ptw) == 4 + nchan * ChannelWords(ptw)
  {
    if nchan > 0 {
      var k: nat := nchan - 1;
      EventWordsClosed(k, ptw);
      MulSucc(k, ChannelWords(ptw));
    }
  }

  lemma {:induction false} BoardBlockWordsClosed(events: nat, ptw: nat)
    ensures BoardBlockWords(events, ptw) == 22 + events * EventWords(NCHAN, ptw)
  {
    if events > 0 {
      var k: nat := events - 1;
      var e := EventWords(NCHAN, ptw);
      BoardBlockWordsClosed(k, ptw);
      MulSucc(k, e);
    }
  }

  lemma {:induction false} CrateBlockWordsClosed(nfadc: nat, blockLevel: nat, ptw: nat)
    ensures CrateBlockWords(nfadc, blockLevel, ptw) == nfadc * BoardBlockWords(blockLevel, ptw)
  {
    if nfadc > 0 {
      var k: nat := nfadc - 1;
      var b := BoardBlockWords(blockLevel, ptw);
      CrateBlockWordsClosed(k, blockLevel, ptw);
      MulSucc(k, b);
    }
  }

  /** The formula equals the word-by-word breakdown of its comment: per board,
      4 framing words, `blockLevel` events of 4 header words plus 16 channel
      records, and 18 scaler words. */
  lemma MaxWordsIsBreakdown(nfadc: nat, blockLevel: nat, ptw: nat)
    ensures MaxWordsExact(nfadc, blockLevel, ptw) == CrateBlockWords(nfadc, blockLevel, ptw)
  {
    EventWordsClosed(NCHAN, ptw);
    BoardBlockWordsClosed(blockLevel, ptw);
    CrateBlockWordsClosed(nfadc, blockLevel, ptw);
  }

  lemma MulMonotone(a: nat, b: nat, c: nat, d: nat)
    requires a <= b && c <= d
    ensures a * c <= b * d
  {
    assert a * c <= a * d by {
      assert a * (d - c) >= 0;
    }
    assert a * d <= b * d by {
      assert (b - a) * d >= 0;
    }
  }

  /** More boards, a higher block level or a wider window never lowers the bound. */
  lemma MaxWordsMonotone(n1: nat, n2: nat, b1: nat, b2: nat, p1: nat, p2: nat)
    requires n1 <= n2 && b1 <= b2 && p1 <= p2
    ensures MaxWordsExact(n1, b1, p1) <= MaxWordsExact(n2, b2, p2)
  {
    var e1 := 4 + 16 * (1 + p1 / 2);
    var e2 := 4 + 16 * (1 + p2 / 2);
    assert e1 <= e2;
    MulMonotone(b1, b2, e1, e2);
    MulMonotone(n1, n2, 4 + b1 * e1 + 18, 4 + b2 * e2 + 18);
  }

  /** fa250_Go: MAXFADCWORDS is computed from the block level the TI reports
      and the window width of the first board. With `ptw` unsigned the
      product is computed in `unsigned int`, so it is kept modulo 2^32 for any
      reported level; for a level of 0 or more and a product below 2^32 it is
      the exact worst case. */
  function Go(nfadc: nat, tiBlockLevel: int, ptw: uint32): (c: Config)
    ensures c.nfadc == nfadc
    ensures (c.maxWords - MaxWordsExact(nfadc, tiBlockLevel, ptw)) % TWO32 == 0
    ensures 0 <= tiBlockLevel && MaxWordsExact(nfadc, tiBlockLevel, ptw) < TWO32 ==>
              c.maxWords == CrateBlockWords(nfadc, tiBlockLevel, ptw)
  {
    var exact := MaxWordsExact(nfadc, tiBlockLevel, ptw);
    if tiBlockLevel >= 0 then
      MaxWordsIsBreakdown(nfadc, tiBlockLevel, ptw);
      Config(nfadc, Uint32(exact))
    else
      Config(nfadc, Uint32(exact))
  }

  // ---------------------------------------------------------------------
  // Trigger

  /** What the hardware answers during one trigger: the scan mask of
      initialised boards, the block-ready scan, the word count and error flag
      of the block read, and each board's ready count at the sync check. */
  datatype Oracle = Oracle(scanmask: bv32, datascan: bv32, nwords: int, blockError: int,
                           pending: nat -> int)

  /** `for (ifa = 0; ifa < n; ifa++) faResetToken(faSlot(ifa))`. */
  function TokenResets(n: nat): (t: seq<Action>)
    ensures |t| == n
    ensures forall i :: 0 <= i < n ==> t[i] == TokenReset(i)
  {
    if n == 0 then [] else TokenResets(n - 1) + [TokenReset(n - 1)]
  }

  /** Every board 0..n-1 gets exactly one token reset, and no other board does. */
  lemma {:induction false} TokenResetsCount(n: nat, m: nat)
    ensures Count(TokenResets(n), TokenReset(m)) == (if m < n then 1 else 0)
  {
    if n > 0 {
      var k: nat := n - 1;
      assert TokenResets(n) == TokenResets(k) + [TokenReset(k)];
      TokenResetsCount(k, m);
      CountConcat(TokenResets(k), [TokenReset(k)], TokenReset(m));
    }
  }

  /** The bank part of fa250_Trigger, from BANKOPEN to BANKCLOSE. */
  function ReadoutBank(c: Config, cursor: int, o: Oracle): (r: Step)
    ensures |r.trace| >= 2 && r.trace[0] == BankOpen(FADC_BANK, 0) && r.trace[|r.trace| - 1] == BankClose
  {
    var open := [BankOpen(FADC_BANK, 0)];
    if o.datascan == o.scanmask then
      var read := BlockRead(0, c.maxWords, ReadoutType(c.nfadc));
      if o.blockError != 0 then
        Step(cursor + (if o.nwords > 0 then o.nwords else 0),
             open + [read] + TokenResets(c.nfadc) + [BankClose])
      else
        Step(cursor + o.nwords, open + [read, TokenReset(0), BankClose])
    else
      Step(cursor, open + [BankClose])
  }

  /** The bank is opened once and closed once on every path, and nothing
      else in it is a bank action. */
  lemma ReadoutBankFramed(c: Config, cursor: int, o: Oracle)
    ensures Framed(ReadoutBank(c, cursor, o).trace, false)
    ensures Count(ReadoutBank(c, cursor, o).trace, BankOpen(FADC_BANK, 0)) == 1
    ensures Count(ReadoutBank(c, cursor, o).trace, BankClose) == 1
  {
    var read := BlockRead(0, c.maxWords, ReadoutType(c.nfadc));
    var t := ReadoutBank(c, cursor, o).trace;
    if o.datascan != o.scanmask {
      assert t == [BankOpen(FADC_BANK, 0)] + [] + [BankClose];
      OneBankFramed(FADC_BANK, 0, []);
      OneBankCounts(FADC_BANK, 0, []);
    } else if o.blockError != 0 {
      var body := [read] + TokenResets(c.nfadc);
      assert t == [BankOpen(FADC_BANK, 0)] + body + [BankClose];
      assert forall i :: 0 <= i < |body| ==> !IsBank(body[i]) by {
        forall i | 0 < i < |body| ensures body[i] == TokenReset(i - 1) {
          assert body[i] == TokenResets(c.nfadc)[i - 1];
        }
      }
      OneBankFramed(FADC_BANK, 0, body);
      OneBankCounts(FADC_BANK, 0, body);
    } else {
      assert t == [BankOpen(FADC_BANK, 0)] + [read, TokenReset(0)] + [BankClose];
      OneBankFramed(FADC_BANK, 0, [read, TokenReset(0)]);
      OneBankCounts(FADC_BANK, 0, [read, TokenReset(0)]);
    }
  }

  /** Scan mismatch (datascan != scanmask): no block read, no token reset,
      and the cursor does not move. */
  lemma ReadoutBankMismatch(c: Config, cursor: int, o: Oracle)
    requires o.datascan != o.scanmask
    ensures ReadoutBank(c, cursor, o).cursor == cursor
    ensures forall a: Action :: a in ReadoutBank(c, cursor, o).trace ==> !a.BlockRead? && !a.TokenReset?
  {
  }

  /** A block read is issued iff the scan matched, always with MAXFADCWORDS
      as ceiling and the transfer type fixed at Download. */
  lemma ReadoutBankReads(c: Config, cursor: int, o: Oracle)
    ensures (BlockRead(0, c.maxWords, ReadoutType(c.nfadc)) in ReadoutBank(c, cursor, o).trace) ==
            (o.datascan == o.scanmask)
    ensures forall a: Action :: a in ReadoutBank(c, cursor, o).trace && a.BlockRead? ==>
              a == BlockRead(0, c.maxWords, ReadoutType(c.nfadc))
  {
  }

  /** Clean transfer: the cursor advances by exactly nwords and only the
      first board's token is reset. */
  lemma ReadoutBankClean(c: Config, cursor: int, o: Oracle)
    requires o.datascan == o.scanmask && o.blockError == 0
    ensures ReadoutBank(c, cursor, o).cursor == cursor + o.nwords
    ensures forall m: nat :: Count(ReadoutBank(c, cursor, o).trace, TokenReset(m)) == (if m == 0 then 1 else 0)
  {
    var read := BlockRead(0, c.maxWords, ReadoutType(c.nfadc));
    assert ReadoutBank(c, cursor, o).trace == [BankOpen(FADC_BANK, 0)] + [read, TokenReset(0)] + [BankClose];
    forall m: nat
      ensures Count([BankOpen(FADC_BANK, 0)] + [read, TokenReset(0)] + [BankClose], TokenReset(m)) ==
                (if m == 0 then 1 else 0)
    {
      CountConcat([BankOpen(FADC_BANK, 0)], [read, TokenReset(0)], TokenReset(m));
      CountConcat([BankOpen(FADC_BANK, 0)] + [read, TokenReset(0)], [BankClose], TokenReset(m));
      assert [read, TokenReset(0)] == [read] + [TokenReset(0)];
      CountConcat([read], [TokenReset(0)], TokenReset(m));
      CountSingle(BankOpen(FADC_BANK, 0), TokenReset(m));
      CountSingle(read, TokenReset(m));
      CountSingle(TokenReset(0), TokenReset(m));
      CountSingle(BankClose, TokenReset(m));
    }
  }

  /** Block error: every board 0..nfadc-1 gets exactly one token reset, and
      the cursor advances by nwords only when nwords is positive. */
  lemma ReadoutBankError(c: Config, cursor: int, o: Oracle)
    requires o.datascan == o.scanmask && o.blockError != 0
    ensures ReadoutBank(c, cursor, o).cursor == cursor + (if o.nwords > 0 then o.nwords else 0)
    ensures forall m: nat :: Count(ReadoutBank(c, cursor, o).trace, TokenReset(m)) ==
              (if m < c.nfadc then 1 else 0)
  {
    var head := [BankOpen(FADC_BANK, 0), BlockRead(0, c.maxWords, ReadoutType(c.nfadc))];
    var resets := TokenResets(c.nfadc);
    assert ReadoutBank(c, cursor, o).trace == head + resets + [BankClose];
    forall m: nat
      ensures Count(head + resets + [BankClose], TokenReset(m)) == (if m < c.nfadc then 1 else 0)
    {
      TokenResetsCount(c.nfadc, m);
      CountConcat(head, resets, TokenReset(m));
      CountConcat(head + resets, [BankClose], TokenReset(m));
    }
  }

  /** The sync-event check of fa250_Trigger over boards 0..n-1: it only
      reports and flushes, and only boards below n. */
  function Drain(n: nat, pending: nat -> int): (t: seq<Action>)
    ensures forall a :: a in t ==> (a.Flush? || a.ResidualReported?) && a.source.Fadc? && a.source.index < n
  {
    if n == 0 then [] else Drain(n - 1, pending) + SyncDrain(Fadc(n - 1), pending(n - 1))
  }

  /** The drain opens and closes no bank. */
  lemma {:induction false} DrainHasNoBanks(n: nat, pending: nat -> int)
    ensures forall i :: 0 <= i < |Drain(n, pending)| ==> !IsBank(Drain(n, pending)[i])
  {
    if n > 0 {
      DrainHasNoBanks(n - 1, pending);
      var rest, last := Drain(n - 1, pending), SyncDrain(Fadc(n - 1), pending(n - 1));
      assert Drain(n, pending) == rest + last;
      forall i | 0 <= i < |rest + last|
        ensures !IsBank((rest + last)[i])
      {
        if i >= |rest| {
          assert (rest + last)[i] == last[i - |rest|];
        }
      }
    }
  }

  /** One unfolding of Drain: the last board's check follows the others'. */
  lemma DrainSplit(n: nat, pending: nat -> int)
    requires n > 0
    ensures Drain(n, pending) == Drain(n - 1, pending) + SyncDrain(Fadc(n - 1), pending(n - 1))
  {
  }

  /** Counting in Drain(n): the first n-1 boards' checks, plus the last board's. */
  lemma DrainCountStep(n: nat, pending: nat -> int, a: Action)
    requires n > 0
    ensures Count(Drain(n, pending), a) ==
              Count(Drain(n - 1, pending), a) + Count(SyncDrain(Fadc(n - 1), pending(n - 1)), a)
  {
    DrainSplit(n, pending);
    CountConcat(Drain(n - 1, pending), SyncDrain(Fadc(n - 1), pending(n - 1)), a);
  }

  /** Board m is flushed pending(m) times when it is among boards 0..n-1 and
      has residual data, and never otherwise. */
  lemma {:induction false} DrainFlushCount(n: nat, pending: nat -> int, m: nat)
    ensures Count(Drain(n, pending), Flush(Fadc(m))) ==
              (if m < n && pending(m) > 0 then pending(m) else 0)
  {
    if n > 0 {
      var k: nat := n - 1;
      DrainCountStep(n, pending, Flush(Fadc(m)));
      DrainFlushCount(k, pending, m);
      FlushInDrain(k, pending(k), m);
    }
  }

  /** One board's drain flushes that board only. */
  lemma FlushInDrain(k: nat, v: int, m: nat)
    ensures Count(SyncDrain(Fadc(k), v), Flush(Fadc(m))) == (if m == k && v > 0 then v else 0)
  {
    SyncDrainCounts(Fadc(k), v, Flush(Fadc(m)));
  }

  /** One board's drain reports its own count and nobody else's. */
  lemma ReportInDrain(k: nat, v: int, m: nat, x: int)
    ensures Count(SyncDrain(Fadc(k), v), ResidualReported(Fadc(m), x)) ==
              (if m == k && x == v && v > 0 then 1 else 0)
  {
    SyncDrainCounts(Fadc(k), v, ResidualReported(Fadc(m), x));
  }

  /** Board m's residual count is reported exactly once when it is among
      boards 0..n-1 and positive, and never otherwise. */
  lemma {:induction false} DrainReportCount(n: nat, pending: nat -> int, m: nat)
    ensures Count(Drain(n, pending), ResidualReported(Fadc(m), pending(m))) ==
              (if m < n && pending(m) > 0 then 1 else 0)
  {
    if n > 0 {
      var k: nat := n - 1;
      DrainCountStep(n, pending, ResidualReported(Fadc(m), pending(m)));
      DrainReportCount(k, pending, m);
      ReportInDrain(k, pending(k), m, pending(m));
    }
  }

  /** fa250_Trigger: the bank, then, on a sync event (flag == 1), the drain of every board. */
  function Trigger(c: Config, cursor: int, syncFlag: int, o: Oracle): (r: Step)
    ensures r.cursor == ReadoutBank(c, cursor, o).cursor
  {
    var bank := ReadoutBank(c, cursor, o);
    if syncFlag == 1 then Step(bank.cursor, bank.trace + Drain(c.nfadc, o.pending)) else bank
  }

  /** The whole handler keeps its one bank framed, and on a sync event flushes
      each board with residual data down to zero after one report; otherwise
      it flushes nothing. */
  lemma TriggerDrains(c: Config, cursor: int, syncFlag: int, o: Oracle)
    ensures Framed(Trigger(c, cursor, syncFlag, o).trace, false)
    ensures Count(Trigger(c, cursor, syncFlag, o).trace, BankOpen(FADC_BANK, 0)) == 1
    ensures Count(Trigger(c, cursor, syncFlag, o).trace, BankClose) == 1
    ensures forall m: nat :: Count(Trigger(c, cursor, syncFlag, o).trace, Flush(Fadc(m))) ==
              (if syncFlag == 1 && m < c.nfadc && o.pending(m) > 0 then o.pending(m) else 0)
    ensures forall m: nat :: Count(Trigger(c, cursor, syncFlag, o).trace, ResidualReported(Fadc(m), o.pending(m))) ==
              (if syncFlag == 1 && m < c.nfadc && o.pending(m) > 0 then 1 else 0)
  {
    var bank := ReadoutBank(c, cursor, o);
    ReadoutBankFramed(c, cursor, o);
    BankHasNoDrainActions(c, cursor, o);
    if syncFlag == 1 {
      var drain := Drain(c.nfadc, o.pending);
      forall m: nat
        ensures Count(drain, Flush(Fadc(m))) == (if m < c.nfadc && o.pending(m) > 0 then o.pending(m) else 0)
        ensures Count(drain, ResidualReported(Fadc(m), o.pending(m))) == (if m < c.nfadc && o.pending(m) > 0 then 1 else 0)
      {
        DrainFlushCount(c.nfadc, o.pending, m);
        DrainReportCount(c.nfadc, o.pending, m);
      }
      DrainHasNoBanks(c.nfadc, o.pending);
      NoBanksFramed(drain);
      FramedAppend(bank.trace, drain, false);
      NoBankCount(drain);
      assert Trigger(c, cursor, syncFlag, o).trace == bank.trace + drain;
      forall a: Action
        ensures Count(bank.trace + drain, a) == Count(bank.trace, a) + Count(drain, a)
      {
        CountConcat(bank.trace, drain, a);
      }
    }
  }

  lemma BankHasNoDrainActions(c: Config, cursor: int, o: Oracle)
    ensures forall a: Action :: (a.Flush? || a.ResidualReported?) ==>
              Count(ReadoutBank(c, cursor, o).trace, a) == 0
  {
    var t := ReadoutBank(c, cursor, o).trace;
    forall a: Action | a.Flush? || a.ResidualReported?
      ensures Count(t, a) == 0
    {
      assert a !in t;
      CountAbsent(t, a);
    }
  }

  /** The drain touches the boards only: it issues no TI action. */
  lemma {:induction false} DrainLeavesTi(n: nat, pending: nat -> int, a: Action)
    requires TiAction(a)
    ensures Count(Drain(n, pending), a) == 0
  {
    if n > 0 {
      var k: nat := n - 1;
      DrainCountStep(n, pending, a);
      DrainLeavesTi(k, pending, a);
      SyncDrainCounts(Fadc(k), pending(k), a);
    }
  }

  /** fa250_Trigger issues no TI action: no trigger-block read, no pulser or
      trigger-input command and no TI flush. */
  lemma TriggerLeavesTi(c: Config, cursor: int, syncFlag: int, o: Oracle)
    ensures forall a: Action :: TiAction(a) ==> Count(Trigger(c, cursor, syncFlag, o).trace, a) == 0
  {
    var bank := ReadoutBank(c, cursor, o);
    forall a: Action | TiAction(a)
      ensures Count(Trigger(c, cursor, syncFlag, o).trace, a) == 0
    {
      assert a !in bank.trace;
      CountAbsent(bank.trace, a);
      if syncFlag == 1 {
        DrainLeavesTi(c.nfadc, o.pending, a);
        CountConcat(bank.trace, Drain(c.nfadc, o.pending), a);
      }
    }
  }
}
