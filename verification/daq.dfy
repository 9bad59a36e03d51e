/** Vocabulary shared by the readout lists: the actions a trigger handler
    issues against the hardware and the event buffer, the framing rule for
    banks, the C integer conversions the handlers rely on, the VME byte swap,
    and the "flush until nothing is pending" loop used at sync events. */
module Daq {

  const TWO32: int := 0x1_0000_0000

  /** C `uint32_t`. */
  type uint32 = x: int | 0 <= x < TWO32

  /** Who a drain action is aimed at: FADC number `index`, or the TI itself. */
  datatype Source = Fadc(index: nat) | TiBoard

  /** One externally visible step of a trigger handler, in issue order. */
  datatype Action =
    | BankOpen(tag: int, num: int)                   // BANKOPEN(tag, BT_UI4, num)
    | BankClose                                      // BANKCLOSE
    | TiBlockRead                                    // tiReadTriggerBlock(dma_dabufp)
    | BlockRead(slot: int, ceiling: int, mode: int)  // faReadBlock / sspReadBlock
    | TokenReset(index: nat)                         // faResetToken(faSlot(index))
    | ResidualReported(source: Source, count: int)   // "Data available after readout in SYNC event"
    | Flush(source: Source)                          // vmeDmaFlush on the source's A32 window
    | PulserArm(period: int)                         // tiSoftTrig(1, 0xffff, period, 0)
    | PulserStop                                     // tiSoftTrig(1, 0, 0, 0)
    | RandomPulserArm(prescale: int)                 // tiSetRandomTrigger(1, prescale)
    | TriggerInputSelected(input: int)               // tiSetTriggerSource(input)
    | WordWritten(value: bv32)                       // *dma_dabufp++ = value

  /** The actions that belong to the TI: its trigger-block read, pulser and
      trigger-input commands, and its own sync drain. */
  predicate TiAction(a: Action) {
    a.TiBlockRead? || a.PulserArm? || a.PulserStop? || a.RandomPulserArm? || a.TriggerInputSelected? ||
    ((a.Flush? || a.ResidualReported?) && a.source == TiBoard)
  }

  /** The write cursor after a handler, and what the handler issued. */
  datatype Step = Step(cursor: int, trace: seq<Action>)

  predicate IsBank(a: Action) {
    a.BankOpen? || a.BankClose?
  }

  /** Banks in `t` are opened and closed strictly in pairs and never nested;
      `open` says whether a bank is already open before `t`. At the end of
      `t` no bank is open. */
  predicate Framed(t: seq<Action>, open: bool)
    decreases |t|
  {
    if |t| == 0 then !open
    else if t[0].BankOpen? then !open && Framed(t[1..], true)
    else if t[0].BankClose? then open && Framed(t[1..], false)
    else Framed(t[1..], open)
  }

  lemma {:induction false} FramedAppend(a: seq<Action>, b: seq<Action>, open: bool)
    requires Framed(a, open)
    requires Framed(b, false)
    ensures Framed(a + b, open)
    decreases |a|
  {
    if |a| == 0 {
      assert a + b == b;
    } else {
      assert (a + b)[0] == a[0];
      assert (a + b)[1..] == a[1..] + b;
      FramedAppend(a[1..], b, if a[0].BankOpen? then true else if a[0].BankClose? then false else open);
    }
  }

  /** A trace without bank actions is framed (from a closed state). */
  lemma {:induction false} NoBanksFramed(t: seq<Action>)
    requires forall i :: 0 <= i < |t| ==> !IsBank(t[i])
    ensures Framed(t, false)
    decreases |t|
  {
    if |t| > 0 {
      NoBanksFramed(t[1..]);
    }
  }

  /** Exactly one bank, opened first and closed last, around bank-free actions. */
  lemma OneBankFramed(tag: int, num: int, body: seq<Action>)
    requires forall i :: 0 <= i < |body| ==> !IsBank(body[i])
    ensures Framed([BankOpen(tag, num)] + body + [BankClose], false)
  {
    var t := [BankOpen(tag, num)] + body + [BankClose];
    assert t[1..] == body + [BankClose];
    InnerFramed(body);
  }

  /** A bank-free trace counts no bank action. */
  lemma NoBankCount(t: seq<Action>)
    requires forall i :: 0 <= i < |t| ==> !IsBank(t[i])
    ensures forall a: Action :: IsBank(a) ==> Count(t, a) == 0
  {
    forall a: Action | IsBank(a)
      ensures Count(t, a) == 0
    {
      CountAbsent(t, a);
    }
  }

  /** In `[BankOpen(tag, num)] + body + [BankClose]` with a bank-free body,
      that bank is opened once, closed once, and no other bank is opened. */
  lemma OneBankCounts(tag: int, num: int, body: seq<Action>)
    requires forall i :: 0 <= i < |body| ==> !IsBank(body[i])
    ensures Count([BankOpen(tag, num)] + body + [BankClose], BankOpen(tag, num)) == 1
    ensures Count([BankOpen(tag, num)] + body + [BankClose], BankClose) == 1
    ensures forall tag', num' :: (tag', num') != (tag, num) ==>
              Count([BankOpen(tag, num)] + body + [BankClose], BankOpen(tag', num')) == 0
  {
    forall a: Action | IsBank(a)
      ensures Count([BankOpen(tag, num)] + body + [BankClose], a) ==
                (if a == BankOpen(tag, num) || a == BankClose then 1 else 0)
    {
      BankCountIn(tag, num, body, a);
    }
  }

  lemma BankCountIn(tag: int, num: int, body: seq<Action>, a: Action)
    requires forall i :: 0 <= i < |body| ==> !IsBank(body[i])
    requires IsBank(a)
    ensures Count([BankOpen(tag, num)] + body + [BankClose], a) ==
              (if a == BankOpen(tag, num) || a == BankClose then 1 else 0)
  {
    var head, tail := [BankOpen(tag, num)], [BankClose];
    CountConcat(head, body, a);
    CountConcat(head + body, tail, a);
    CountSingle(BankOpen(tag, num), a);
    CountSingle(BankClose, a);
    assert a !in body;
    CountAbsent(body, a);
  }

  lemma {:induction false} InnerFramed(body: seq<Action>)
    requires forall i :: 0 <= i < |body| ==> !IsBank(body[i])
    ensures Framed(body + [BankClose], true)
    decreases |body|
  {
    if |body| == 0 {
      assert body + [BankClose] == [BankClose];
    } else {
      assert (body + [BankClose])[1..] == body[1..] + [BankClose];
      InnerFramed(body[1..]);
    }
  }

  // ---------------------------------------------------------------------
  // Counting actions

  /** How many times `a` was issued in `t`. */
  function Count(t: seq<Action>, a: Action): nat
  {
    if |t| == 0 then 0 else (if t[0] == a then 1 else 0) + Count(t[1..], a)
  }

  /** Counting over a concatenation adds the counts of the two parts. */
  lemma {:induction false} CountConcat(a: seq<Action>, b: seq<Action>, x: Action)
    ensures Count(a + b, x) == Count(a, x) + Count(b, x)
    decreases |a|
  {
    if |a| == 0 {
      assert a + b == b;
    } else {
      assert (a + b)[0] == a[0];
      assert (a + b)[1..] == a[1..] + b;
      CountConcat(a[1..], b, x);
    }
  }

  lemma CountSingle(x: Action, a: Action)
    ensures Count([x], a) == if x == a then 1 else 0
  {
    assert [x][1..] == [];
  }

  /** An action is counted exactly when it occurs. */
  lemma {:induction false} CountAbsent(t: seq<Action>, x: Action)
    ensures Count(t, x) == 0 <==> x !in t
    decreases |t|
  {
    if |t| > 0 {
      assert t == [t[0]] + t[1..];
      CountAbsent(t[1..], x);
    }
  }

  // ---------------------------------------------------------------------
  // C integer conversions

  /** Conversion to `uint32_t`: reduction modulo 2^32. */
  function Uint32(x: int): (r: uint32)
    ensures (x - r) % TWO32 == 0
    ensures 0 <= x < TWO32 ==> r == x
  {
    x % TWO32
  }

  /** Conversion to `int32_t` (two's complement wrap, as the compilers used here do). */
  function Int32(x: int): (r: int)
    ensures -0x8000_0000 <= r < 0x8000_0000
    ensures (x - r) % TWO32 == 0
    ensures -0x8000_0000 <= x < 0x8000_0000 ==> r == x
  {
    var u := x % TWO32;
    if u >= 0x8000_0000 then u - TWO32 else u
  }

  /** Conversion to `int16_t` (two's complement wrap). */
  function Int16(x: int): (r: int)
    ensures -0x8000 <= r < 0x8000
    ensures (x - r) % 0x1_0000 == 0
    ensures -0x8000 <= x < 0x8000 ==> r == x
  {
    var u := x % 0x1_0000;
    if u >= 0x8000 then u - 0x1_0000 else u
  }

  /** LSWAP: reverse the four bytes of a word (VME data is big-endian).
      Byte `i` of the result is byte `3 - i` of the word. */
  function LSwap(w: bv32): (r: bv32)
    ensures r & 0xff == (w >> 24) & 0xff
    ensures (r >> 8) & 0xff == (w >> 16) & 0xff
    ensures (r >> 16) & 0xff == (w >> 8) & 0xff
    ensures (r >> 24) & 0xff == w & 0xff
  {
    ((w & 0xff) << 24) | ((w & 0xff00) << 8) | ((w >> 8) & 0xff00) | ((w >> 24) & 0xff)
  }

  /** Swapping twice gives back the word: a reader undoes the swap a writer applied. */
  lemma LSwapInvolution(w: bv32)
    ensures LSwap(LSwap(w)) == w
  {
  }

  // ---------------------------------------------------------------------
  // Bits of a non-negative integer

  function Pow2(k: nat): (r: nat)
    ensures r >= 1
  {
    if k == 0 then 1 else 2 * Pow2(k - 1)
  }

  /** Bit `i` of `m` (what `m & (1 << i)` tests). */
  function Bit(m: nat, i: nat): bool
  {
    if i == 0 then m % 2 == 1 else Bit(m / 2, i - 1)
  }

  lemma {:induction false} BitOfZero(i: nat)
    ensures !Bit(0, i)
  {
    if i > 0 {
      BitOfZero(i - 1);
    }
  }

  // ---------------------------------------------------------------------
  // Sync-event drain

  /** `while (ready()) vmeDmaFlush(...)`, with each flush removing one
      pending block: the loop ends exactly when the ready count reaches 0,
      after one flush per pending block. */
  function FlushUntilEmpty(src: Source, ready: nat): (t: seq<Action>)
    ensures |t| == ready
    ensures forall i :: 0 <= i < |t| ==> t[i] == Flush(src)
    decreases ready
  {
    if ready == 0 then [] else [Flush(src)] + FlushUntilEmpty(src, ready - 1)
  }

  /** The sync-event check on one source: the ready count `davail` is read;
      a positive count is reported once and then flushed down to zero. */
  function SyncDrain(src: Source, davail: int): (t: seq<Action>)
    ensures davail <= 0 ==> t == []
    ensures davail > 0 ==> |t| == davail + 1 && t[0] == ResidualReported(src, davail)
    ensures forall i :: 0 < i < |t| ==> t[i] == Flush(src)
    ensures forall i :: 0 <= i < |t| ==> !IsBank(t[i])
  {
    if davail > 0 then [ResidualReported(src, davail)] + FlushUntilEmpty(src, davail) else []
  }

  /** Counting in a drain: one report of `davail` and `davail` flushes, nothing else. */
  lemma SyncDrainCounts(src: Source, davail: int, a: Action)
    ensures Count(SyncDrain(src, davail), a) ==
              if a == Flush(src) && davail > 0 then davail
              else if a == ResidualReported(src, davail) && davail > 0 then 1
              else 0
  {
    if davail > 0 {
      var f := FlushUntilEmpty(src, davail);
      UniformCount(f, Flush(src), a);
      CountConcat([ResidualReported(src, davail)], f, a);
    }
  }

  /** A sequence made of one repeated action `a` counts `a` |t| times and nothing else. */
  lemma {:induction false} UniformCount(t: seq<Action>, a: Action, b: Action)
    requires forall i :: 0 <= i < |t| ==> t[i] == a
    ensures Count(t, b) == if b == a then |t| else 0
    decreases |t|
  {
    if |t| > 0 {
      UniformCount(t[1..], a, b);
    }
  }
}
