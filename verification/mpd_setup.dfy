/** MPD set-up (ssp_mpd_setup in ssp_mpd_rol_include.c): the run-once guard,
    the fiber enable loop, the pedestal-mode correction, the APV scan and
    configuration retry counters, the slots flagged in errSlotMask, and the
    "Configured APVs" summary lines. */
module MpdSetup {
  import opened Daq

  /** The scan is retried while try_cnt < 3. */
  const MAX_SCAN_RETRIES: nat := 3
  /** Passes of the individual APV configuration. */
  const MAX_CONFIG_PASSES: nat := 3
  /** Bits of the APV enable mask shown in the summary (ADC 15 ... 0). */
  const SUMMARY_BITS: nat := 16

  // ---------------------------------------------------------------------
  // Run-once guard: `if ((just_once++) > 0) return;`

  /** Number of times the body runs over `n` calls, starting with the
      static counter at `justOnce`: a call runs iff the counter, read before
      the increment, is not positive. */
  function Runs(justOnce: int, n: nat): nat
    decreases n
  {
    if n == 0 then 0 else (if justOnce <= 0 then 1 else 0) + Runs(justOnce + 1, n - 1)
  }

  /** Calls with a non-positive counter run until the counter reaches 1;
      later calls never run. From the static initialiser 0, any number of
      calls runs the body exactly once. */
  lemma {:induction false} RunsBound(justOnce: int, n: nat)
    ensures Runs(justOnce, n) == if justOnce > 0 then 0
                                 else if n <= 1 - justOnce then n else 1 - justOnce
    ensures justOnce == 0 ==> Runs(justOnce, n) == (if n == 0 then 0 else 1)
    decreases n
  {
    if n > 0 {
      RunsBound(justOnce + 1, n - 1);
    }
  }

  // ---------------------------------------------------------------------
  // Fiber enable loop

  /** `m >> k` on a non-negative value. */
  function Shr(m: nat, k: nat): nat
  {
    if k == 0 then m else Shr(m / 2, k - 1)
  }

  lemma {:induction false} ShrBit(m: nat, k: nat, j: nat)
    ensures Bit(m, k + j) == Bit(Shr(m, k), j)
    decreases k
  {
    if k > 0 {
      ShrBit(m / 2, k - 1, j);
    }
  }

  lemma {:induction false} ShrStep(m: nat, k: nat)
    ensures Shr(m, k + 1) == Shr(m, k) / 2
    decreases k
  {
    if k > 0 {
      ShrStep(m / 2, k - 1);
    }
  }

  /** `while (mask != 0) { if (mask & 1) enable(1 << bit); mask >>= 1; ++bit; }`:
      the fibers enabled, in call order, are exactly the set bits of the
      mask, lowest first, each once. */
  method EnableFibers(mask: nat) returns (enabled: seq<nat>)
    ensures forall b: nat :: b in enabled <==> Bit(mask, b)
    ensures forall i, j :: 0 <= i < j < |enabled| ==> enabled[i] < enabled[j]
  {
    var m := mask;
    var bit: nat := 0;
    enabled := [];
    while m != 0
      invariant m == Shr(mask, bit)
      invariant forall b: nat :: b in enabled <==> b < bit && Bit(mask, b)
      invariant forall i :: 0 <= i < |enabled| ==> enabled[i] < bit
      invariant forall i, j :: 0 <= i < j < |enabled| ==> enabled[i] < enabled[j]
      decreases m
    {
      ShrBit(mask, bit, 0);
      ShrStep(mask, bit);
      if m % 2 == 1 {
        enabled := enabled + [bit];
      }
      m := m / 2;
      bit := bit + 1;
    }
    forall b: nat | Bit(mask, b)
      ensures b < bit
    {
      if b >= bit {
        ShrBit(mask, bit, b - bit);
        BitOfZero(b - bit);
      }
    }
  }

  // ---------------------------------------------------------------------
  // APV scan retry and configuration passes

  /** How the scan retry ended: try_cnt when the `goto retry` loop left, and
      the number of mpdAPV_Scan calls. */
  datatype ScanEnd = ScanEnd(tries: nat, calls: nat)

  /** `retry: ... if (mpdAPV_Scan(i) <= 0 && try_cnt < 3) { try_cnt++; goto retry; }`
      from try_cnt == `tryCnt`; `scan(j)` answers the j-th scan. The scan is
      called before try_cnt is tested, so a fourth call is made, and
      ignored, when the first three find nothing. */
  function ScanFrom(scan: nat -> int, tryCnt: nat): (r: ScanEnd)
    requires tryCnt <= MAX_SCAN_RETRIES
    ensures tryCnt <= r.tries <= MAX_SCAN_RETRIES
    ensures r.calls == r.tries + 1
    ensures forall j :: tryCnt <= j < r.tries ==> scan(j) <= 0
    ensures r.tries < MAX_SCAN_RETRIES ==> scan(r.tries) > 0
    decreases MAX_SCAN_RETRIES - tryCnt
  {
    if scan(tryCnt) <= 0 && tryCnt < MAX_SCAN_RETRIES then ScanFrom(scan, tryCnt + 1)
    else ScanEnd(tryCnt, tryCnt + 1)
  }

  /** try_cnt reaches 3, which flags the slot, iff the first three scans all
      found no APV, whatever the fourth one answers. */
  lemma ScanFlagIff(scan: nat -> int)
    ensures ScanFrom(scan, 0).calls <= MAX_SCAN_RETRIES + 1
    ensures (ScanFrom(scan, 0).tries == MAX_SCAN_RETRIES) ==
            (forall j :: 0 <= j < MAX_SCAN_RETRIES ==> scan(j) <= 0)
  {
    var r := ScanFrom(scan, 0);
    if r.tries < MAX_SCAN_RETRIES {
      assert scan(r.tries) > 0;
    }
  }

  /** Some mpdAPV_Config call of pass `pass` failed; `ok(p, a)` is whether
      the call for APV `a` in pass `p` returned OK. Every APV is tried in
      every pass, also after a failure. */
  predicate PassFails(ok: (nat, nat) -> bool, pass: nat, nApv: nat)
  {
    exists a :: 0 <= a < nApv && !ok(pass, a)
  }

  /** How the configuration loop ended: passes made, whether error_status
      was ERROR after the loop, and the mpdI2C_ApvReset calls it made. */
  datatype ConfigEnd = ConfigEnd(passes: nat, failed: bool, resets: nat)

  /** `for (itry = 0; itry < 3; itry++)` from pass `pass`: a pass that fails
      resets the APVs and tries again, a clean pass ends the loop. */
  function ConfigFrom(ok: (nat, nat) -> bool, nApv: nat, pass: nat): (r: ConfigEnd)
    requires pass < MAX_CONFIG_PASSES
    ensures pass < r.passes <= MAX_CONFIG_PASSES
    ensures forall p :: pass <= p < r.passes - 1 ==> PassFails(ok, p, nApv)
    ensures r.failed <==> PassFails(ok, r.passes - 1, nApv)
    ensures r.failed ==> r.passes == MAX_CONFIG_PASSES
    ensures r.resets == r.passes - pass - (if r.failed then 0 else 1)
    decreases MAX_CONFIG_PASSES - pass
  {
    if !PassFails(ok, pass, nApv) then ConfigEnd(pass + 1, false, 0)
    else if pass + 1 == MAX_CONFIG_PASSES then ConfigEnd(pass + 1, true, 1)
    else
      var rest := ConfigFrom(ok, nApv, pass + 1);
      rest.(resets := rest.resets + 1)
  }

  /** The configuration leaves an error iff all three passes failed; it
      stops at the first clean pass, and with no APV it never fails. */
  lemma ConfigFailIff(ok: (nat, nat) -> bool, nApv: nat)
    ensures ConfigFrom(ok, nApv, 0).failed ==
            (forall p :: 0 <= p < MAX_CONFIG_PASSES ==> PassFails(ok, p, nApv))
    ensures nApv == 0 ==> ConfigFrom(ok, nApv, 0) == ConfigEnd(1, false, 0)
  {
    var r := ConfigFrom(ok, nApv, 0);
    if r.failed {
      forall p | 0 <= p < MAX_CONFIG_PASSES
        ensures PassFails(ok, p, nApv)
      {
        if p < r.passes - 1 {
        } else {
          assert p == r.passes - 1;
        }
      }
    } else {
      assert !PassFails(ok, r.passes - 1, nApv);
    }
  }

  // ---------------------------------------------------------------------
  // Per-MPD errors and errSlotMask

  /** What the hardware answers for one MPD: its slot (mpdSlot(k)), the scan
      answers, whether the first mpdI2C_ApvReset succeeded, the APV count and
      the configuration answers. */
  datatype Mpd = Mpd(slot: nat, scan: nat -> int, resetOk: bool, nApv: nat, configOk: (nat, nat) -> bool)

  predicate ScanFailed(m: Mpd)
  {
    ScanFrom(m.scan, 0).tries == MAX_SCAN_RETRIES
  }

  /** An error this MPD raises itself in error_status: its APV reset or its
      configuration failed. */
  predicate OwnError(m: Mpd)
  {
    !m.resetOk || ConfigFrom(m.configOk, m.nApv, 0).failed
  }

  /** The MPD's own reasons for a bit in errSlotMask. */
  predicate Flagged(m: Mpd)
  {
    ScanFailed(m) || OwnError(m)
  }

  /** errSlotMask as a set of slots, and whether error_status is ERROR. */
  datatype Errors = Errors(slots: set<nat>, status: bool)

  const NO_ERRORS: Errors := Errors({}, false)

  /** The MPD loop as written: error_status is never reset between MPDs, so
      saveError carries every earlier MPD's error into this one, and the
      final `if (error_status == ERROR)` flags this slot for it. */
  function ConfigureAsWritten(mpds: seq<Mpd>, e: Errors): (r: Errors)
    ensures e.slots <= r.slots && r.slots <= e.slots + set k | 0 <= k < |mpds| :: mpds[k].slot
    ensures e.status ==> r.status
    decreases |mpds|
  {
    if |mpds| == 0 then e
    else
      var m := mpds[0];
      var saveError := e.status || !m.resetOk;
      var status := ConfigFrom(m.configOk, m.nApv, 0).failed || saveError;
      var flag := ScanFailed(m) || !m.resetOk || status;
      ConfigureAsWritten(mpds[1..], Errors(if flag then e.slots + {m.slot} else e.slots, status))
  }

  /** The MPD loop with each slot flagged for its own errors only; the
      status still collects every MPD's errors for the final log message. */
  function Configure(mpds: seq<Mpd>, e: Errors): (r: Errors)
    ensures e.slots <= r.slots && r.slots <= e.slots + set k | 0 <= k < |mpds| :: mpds[k].slot
    ensures e.status ==> r.status
    decreases |mpds|
  {
    if |mpds| == 0 then e
    else
      var m := mpds[0];
      Configure(mpds[1..], Errors(if Flagged(m) then e.slots + {m.slot} else e.slots,
                                  e.status || OwnError(m)))
  }

  predicate FlaggedIn(mpds: seq<Mpd>, s: nat)
  {
    exists k :: 0 <= k < |mpds| && mpds[k].slot == s && Flagged(mpds[k])
  }

  predicate AnyOwnError(mpds: seq<Mpd>)
  {
    exists k :: 0 <= k < |mpds| && OwnError(mpds[k])
  }

  lemma FlaggedInCons(mpds: seq<Mpd>, s: nat)
    requires |mpds| > 0
    ensures FlaggedIn(mpds, s) <==>
            (mpds[0].slot == s && Flagged(mpds[0])) || FlaggedIn(mpds[1..], s)
  {
    if FlaggedIn(mpds, s) {
      var k :| 0 <= k < |mpds| && mpds[k].slot == s && Flagged(mpds[k]);
      if k > 0 {
        assert mpds[1..][k - 1] == mpds[k];
      }
    }
    if FlaggedIn(mpds[1..], s) {
      var k :| 0 <= k < |mpds[1..]| && mpds[1..][k].slot == s && Flagged(mpds[1..][k]);
      assert mpds[k + 1] == mpds[1..][k];
    }
  }

  lemma AnyOwnErrorCons(mpds: seq<Mpd>)
    requires |mpds| > 0
    ensures AnyOwnError(mpds) <==> OwnError(mpds[0]) || AnyOwnError(mpds[1..])
  {
    if AnyOwnError(mpds) {
      var k :| 0 <= k < |mpds| && OwnError(mpds[k]);
      if k > 0 {
        assert mpds[1..][k - 1] == mpds[k];
      }
    }
    if AnyOwnError(mpds[1..]) {
      var k :| 0 <= k < |mpds[1..]| && OwnError(mpds[1..][k]);
      assert mpds[k + 1] == mpds[1..][k];
    }
  }

  /** With the per-slot status, a slot is in errSlotMask iff some MPD in
      that slot failed its scan, its reset or its configuration, and the
      final status is ERROR iff some MPD's reset or configuration failed. */
  lemma {:induction false} ConfigureFlags(mpds: seq<Mpd>, e: Errors)
    ensures forall s :: s in Configure(mpds, e).slots <==> s in e.slots || FlaggedIn(mpds, s)
    ensures Configure(mpds, e).status <==> e.status || AnyOwnError(mpds)
    decreases |mpds|
  {
    if |mpds| > 0 {
      var m := mpds[0];
      var e' := Errors(if Flagged(m) then e.slots + {m.slot} else e.slots, e.status || OwnError(m));
      ConfigureFlags(mpds[1..], e');
      AnyOwnErrorCons(mpds);
      forall s
        ensures s in Configure(mpds, e).slots <==> s in e.slots || FlaggedIn(mpds, s)
      {
        FlaggedInCons(mpds, s);
      }
    }
  }

  /** The loop as written ends with the same final status. */
  lemma {:induction false} AsWrittenStatus(mpds: seq<Mpd>, e: Errors)
    ensures ConfigureAsWritten(mpds, e).status == Configure(mpds, e).status
    ensures e.slots <= ConfigureAsWritten(mpds, e).slots
    decreases |mpds|
  {
    if |mpds| > 0 {
      var m := mpds[0];
      var status := ConfigFrom(m.configOk, m.nApv, 0).failed || e.status || !m.resetOk;
      var flag := ScanFailed(m) || !m.resetOk || status;
      AsWrittenStatus(mpds[1..], Errors(if flag then e.slots + {m.slot} else e.slots, status));
      AsWrittenStatus2(mpds[1..], Errors(if flag then e.slots + {m.slot} else e.slots, status),
                       Errors(if Flagged(m) then e.slots + {m.slot} else e.slots, e.status || OwnError(m)));
    }
  }

  /** The status of either loop depends on the starting status only. */
  lemma {:induction false} AsWrittenStatus2(mpds: seq<Mpd>, a: Errors, b: Errors)
    requires a.status == b.status
    ensures Configure(mpds, a).status == Configure(mpds, b).status
    decreases |mpds|
  {
    if |mpds| > 0 {
      var m := mpds[0];
      AsWrittenStatus2(mpds[1..],
                       Errors(if Flagged(m) then a.slots + {m.slot} else a.slots, a.status || OwnError(m)),
                       Errors(if Flagged(m) then b.slots + {m.slot} else b.slots, b.status || OwnError(m)));
    }
  }

  /** As written, once error_status is ERROR every later MPD's slot is
      flagged, whatever its own scan, reset and configuration did. */
  lemma {:induction false} AsWrittenCarries(mpds: seq<Mpd>, e: Errors)
    requires e.status
    ensures ConfigureAsWritten(mpds, e).status
    ensures forall k :: 0 <= k < |mpds| ==> mpds[k].slot in ConfigureAsWritten(mpds, e).slots
    decreases |mpds|
  {
    if |mpds| > 0 {
      var m := mpds[0];
      var e' := Errors(e.slots + {m.slot}, true);
      assert ConfigureAsWritten(mpds, e) == ConfigureAsWritten(mpds[1..], e');
      AsWrittenCarries(mpds[1..], e');
      AsWrittenStatus(mpds[1..], e');
      forall k | 0 <= k < |mpds|
        ensures mpds[k].slot in ConfigureAsWritten(mpds, e).slots
      {
        if k > 0 {
          assert mpds[k] == mpds[1..][k - 1];
        }
      }
    }
  }

  /** As written, the MPD in slot `s` is flagged for its own scan, reset
      or configuration error, for an error status it started with, or for
      an own error of any MPD before it. */
  predicate CarriedIn(mpds: seq<Mpd>, s: nat, status: bool)
  {
    exists j :: 0 <= j < |mpds| && mpds[j].slot == s && (Flagged(mpds[j]) || status || AnyOwnError(mpds[..j]))
  }

  lemma CarriedInCons(mpds: seq<Mpd>, s: nat, status: bool)
    requires |mpds| > 0
    ensures CarriedIn(mpds, s, status) <==>
            (mpds[0].slot == s && (Flagged(mpds[0]) || status)) ||
            CarriedIn(mpds[1..], s, status || OwnError(mpds[0]))
  {
    var m, rest := mpds[0], mpds[1..];
    forall j | 0 < j < |mpds|
      ensures AnyOwnError(mpds[..j]) <==> OwnError(m) || AnyOwnError(rest[..j - 1])
    {
      AnyOwnErrorCons(mpds[..j]);
      assert mpds[..j][1..] == rest[..j - 1];
    }
    if CarriedIn(mpds, s, status) {
      var j :| 0 <= j < |mpds| && mpds[j].slot == s && (Flagged(mpds[j]) || status || AnyOwnError(mpds[..j]));
      if j == 0 {
        assert mpds[..0] == [];
      } else {
        assert rest[j - 1] == mpds[j];
      }
    }
    if CarriedIn(rest, s, status || OwnError(m)) {
      var j :| 0 <= j < |rest| && rest[j].slot == s &&
               (Flagged(rest[j]) || status || OwnError(m) || AnyOwnError(rest[..j]));
      assert mpds[j + 1] == rest[j];
    }
  }

  /** The loop as written, exactly: a slot ends up in errSlotMask iff it was
      there already or `CarriedIn` holds for it, and the final status is
      ERROR iff it started so or some MPD had an own error. */
  lemma {:induction false} AsWrittenFlags(mpds: seq<Mpd>, e: Errors)
    ensures forall s :: s in ConfigureAsWritten(mpds, e).slots <==> s in e.slots || CarriedIn(mpds, s, e.status)
    ensures ConfigureAsWritten(mpds, e).status <==> e.status || AnyOwnError(mpds)
    decreases |mpds|
  {
    if |mpds| > 0 {
      var m := mpds[0];
      var status := ConfigFrom(m.configOk, m.nApv, 0).failed || e.status || !m.resetOk;
      var flag := ScanFailed(m) || !m.resetOk || status;
      var e' := Errors(if flag then e.slots + {m.slot} else e.slots, status);
      assert ConfigureAsWritten(mpds, e) == ConfigureAsWritten(mpds[1..], e');
      AsWrittenFlags(mpds[1..], e');
      AnyOwnErrorCons(mpds);
      forall s
        ensures s in ConfigureAsWritten(mpds, e).slots <==> s in e.slots || CarriedIn(mpds, s, e.status)
      {
        CarriedInCons(mpds, s, e.status);
      }
    }
  }

  /** A good MPD in slot 4 after a first MPD (slot 3) whose APV reset
      failed. */
  function GoodMpd(slot: nat): Mpd
  {
    Mpd(slot, (j: nat) => 1, true, 1, (p: nat, a: nat) => true)
  }

  function BadResetMpd(slot: nat): Mpd
  {
    Mpd(slot, (j: nat) => 1, false, 1, (p: nat, a: nat) => true)
  }

  /** The loop as written flags slot 4 although that MPD found its APVs, reset
      them and configured them; the per-slot loop does not. */
  lemma SharedStatusFlagsGoodSlot()
    ensures 4 in ConfigureAsWritten([BadResetMpd(3), GoodMpd(4)], NO_ERRORS).slots
    ensures 4 !in Configure([BadResetMpd(3), GoodMpd(4)], NO_ERRORS).slots
    ensures !Flagged(GoodMpd(4))
  {
    var good := GoodMpd(4);
    assert ScanFrom(good.scan, 0) == ScanEnd(0, 1);
    assert !PassFails(good.configOk, 0, 1);
    assert ConfigFrom(good.configOk, 1, 0) == ConfigEnd(1, false, 0);
    assert !Flagged(good);
    AsWrittenCarries([good], Errors({3}, true));
    var mpds := [BadResetMpd(3), good];
    assert mpds[1..] == [good];
    ConfigureFlags(mpds, NO_ERRORS);
    assert !FlaggedIn(mpds, 4);
  }

  // ---------------------------------------------------------------------
  // The "Configured APVs" summary

  /** The characters printed for bit `i` of the enable mask: a space before
      each group of four, then '1' or '.'. */
  function Cell(mask: nat, i: nat): string
  {
    (if (i + 1) % 4 == 0 then " " else "") + [Digit(mask, i)]
  }

  function Digit(mask: nat, i: nat): char
  {
    if Bit(mask, i) then '1' else '.'
  }

  /** The characters printed for bits n-1 down to 0. */
  function Pattern(mask: nat, n: nat): string
  {
    if n == 0 then "" else Cell(mask, n - 1) + Pattern(mask, n - 1)
  }

  /** The characters printed so far when the bit loop reaches bit `lo - 1`:
      bits 15 down to `lo`. */
  function Printed(mask: nat, lo: nat): string
    decreases SUMMARY_BITS - lo
  {
    if lo >= SUMMARY_BITS then "" else Printed(mask, lo + 1) + Cell(mask, lo)
  }

  /** What is printed before bit `lo - 1` and the rest make up the pattern. */
  lemma {:induction false} PrintedPattern(mask: nat, lo: nat)
    requires lo <= SUMMARY_BITS
    ensures Printed(mask, lo) + Pattern(mask, lo) == Pattern(mask, SUMMARY_BITS)
    decreases SUMMARY_BITS - lo
  {
    if lo < SUMMARY_BITS {
      PrintedPattern(mask, lo + 1);
      assert Pattern(mask, lo + 1) == Cell(mask, lo) + Pattern(mask, lo);
    }
  }

  /** Set bits of the mask below `n`. */
  function Ones(mask: nat, n: nat): nat
  {
    if n == 0 then 0 else (if Bit(mask, n - 1) then 1 else 0) + Ones(mask, n - 1)
  }

  /** The mask's low `n` bits as a number. */
  function Low(mask: nat, n: nat): nat
  {
    if n == 0 then 0 else mask % 2 + 2 * Low(mask / 2, n - 1)
  }

  function CountChar(s: string, c: char): nat
  {
    if |s| == 0 then 0 else (if s[0] == c then 1 else 0) + CountChar(s[1..], c)
  }

  /** Digits ('1' or '.') in a printed pattern. */
  function Digits(s: string): nat
  {
    if |s| == 0 then 0 else (if s[0] == ' ' then 0 else 1) + Digits(s[1..])
  }

  /** Reads a printed pattern back as a binary number, most significant
      digit first, skipping the spaces. */
  function PatternValue(s: string): nat
  {
    if |s| == 0 then 0
    else (if s[0] == '1' then Pow2(Digits(s[1..])) else 0) + PatternValue(s[1..])
  }

  lemma {:induction false} CountCharConcat(a: string, b: string, c: char)
    ensures CountChar(a + b, c) == CountChar(a, c) + CountChar(b, c)
    decreases |a|
  {
    if |a| == 0 {
      assert a + b == b;
    } else {
      assert (a + b)[1..] == a[1..] + b;
      CountCharConcat(a[1..], b, c);
    }
  }

  /** Low(mask, n) keeps exactly the bits of the mask below n. */
  lemma {:induction false} LowBits(mask: nat, n: nat, i: nat)
    ensures Bit(Low(mask, n), i) == (i < n && Bit(mask, i))
    decreases n
  {
    if n == 0 {
      BitOfZero(i);
    } else {
      var l := Low(mask / 2, n - 1);
      assert Low(mask, n) == mask % 2 + 2 * l;
      if i == 0 {
        assert (mask % 2 + 2 * l) % 2 == mask % 2;
      } else {
        assert (mask % 2 + 2 * l) / 2 == l;
        LowBits(mask / 2, n - 1, i - 1);
      }
    }
  }

  /** Adding the next bit on top of the low bits. */
  lemma {:induction false} LowTop(mask: nat, n: nat)
    requires n > 0
    ensures Low(mask, n) == (if Bit(mask, n - 1) then Pow2(n - 1) else 0) + Low(mask, n - 1)
    decreases n
  {
    if n > 1 {
      LowTop(mask / 2, n - 1);
    }
  }

  /** The printed pattern has one digit per bit plus a space per group of
      four. */
  lemma {:induction false} PatternLength(mask: nat, n: nat)
    ensures |Pattern(mask, n)| == n + n / 4
    decreases n
  {
    if n > 0 {
      PatternLength(mask, n - 1);
    }
  }

  /** Its '1's are the set bits. */
  lemma {:induction false} PatternOnes(mask: nat, n: nat)
    ensures CountChar(Pattern(mask, n), '1') == Ones(mask, n)
    decreases n
  {
    if n > 0 {
      PatternOnes(mask, n - 1);
      CountCharConcat(Cell(mask, n - 1), Pattern(mask, n - 1), '1');
      CellOnes(mask, n - 1);
    }
  }

  lemma CellOnes(mask: nat, i: nat)
    ensures CountChar(Cell(mask, i), '1') == if Bit(mask, i) then 1 else 0
  {
    CountCharConcat(if (i + 1) % 4 == 0 then " " else "", [Digit(mask, i)], '1');
  }

  lemma SpacePrefix(sp: string, s: string)
    requires sp == " " || sp == ""
    ensures Digits(sp + s) == Digits(s) && PatternValue(sp + s) == PatternValue(s)
  {
    if sp == " " {
      assert (sp + s)[1..] == s;
    } else {
      assert sp + s == s;
    }
  }

  lemma PatternUnfold(mask: nat, n: nat)
    requires n > 0
    ensures Pattern(mask, n) == (if n % 4 == 0 then " " else "") + ([Digit(mask, n - 1)] + Pattern(mask, n - 1))
  {
  }

  lemma DigitFront(c: char, s: string)
    requires c == '1' || c == '.'
    ensures Digits([c] + s) == 1 + Digits(s)
    ensures PatternValue([c] + s) == (if c == '1' then Pow2(Digits(s)) else 0) + PatternValue(s)
  {
    assert ([c] + s)[1..] == s;
  }

  /** Read back, the pattern is the number formed by the mask's low bits. */
  lemma {:induction false} PatternRoundTrip(mask: nat, n: nat)
    ensures Digits(Pattern(mask, n)) == n
    ensures PatternValue(Pattern(mask, n)) == Low(mask, n)
    decreases n
  {
    if n > 0 {
      var p := Pattern(mask, n - 1);
      var q := [Digit(mask, n - 1)] + p;
      assert Digits(q) == n && PatternValue(q) == Low(mask, n) by {
        PatternRoundTrip(mask, n - 1);
        DigitFront(Digit(mask, n - 1), p);
        LowTop(mask, n);
      }
      PatternUnfold(mask, n);
      SpacePrefix(if n % 4 == 0 then " " else "", q);
    }
  }

  /** One line of the summary: an MPD with APVs enabled shows its pattern,
      the count of enabled APVs and whether its slot is in errSlotMask; one
      with an empty enable mask shows only INIT ERRORS. */
  datatype SummaryLine = ApvLine(slot: nat, pattern: string, napv: nat, initErrors: bool)
                       | NoApvLine(slot: nat)

  /** The bit loop `for (ibit = 15; ibit >= 0; ibit--)` of one summary line:
      twenty characters, and the #APV count is the number of '1's, the
      popcount of the mask's low sixteen bits, which the pattern encodes. */
  method SummaryPattern(mask: nat) returns (pattern: string, iapv: nat)
    ensures |pattern| == 20
    ensures CountChar(pattern, '1') == iapv
    ensures PatternValue(pattern) == Low(mask, SUMMARY_BITS)
    ensures pattern == Pattern(mask, SUMMARY_BITS)
    ensures iapv == Ones(mask, SUMMARY_BITS)
  {
    pattern := "";
    iapv := 0;
    var ibit := 15;
    while ibit >= 0
      invariant -1 <= ibit <= 15
      invariant pattern == Printed(mask, ibit + 1)
      invariant iapv == CountChar(pattern, '1')
    {
      CountCharConcat(pattern, Cell(mask, ibit), '1');
      CellOnes(mask, ibit);
      pattern := pattern + Cell(mask, ibit);
      if Bit(mask, ibit) {
        iapv := iapv + 1;
      }
      ibit := ibit - 1;
    }
    PrintedSummary(mask);
  }

  /** The whole bit loop prints the pattern of the sixteen summary bits. */
  lemma PrintedSummary(mask: nat)
    ensures Printed(mask, 0) == Pattern(mask, SUMMARY_BITS)
    ensures |Pattern(mask, SUMMARY_BITS)| == 20
    ensures CountChar(Pattern(mask, SUMMARY_BITS), '1') == Ones(mask, SUMMARY_BITS)
    ensures PatternValue(Pattern(mask, SUMMARY_BITS)) == Low(mask, SUMMARY_BITS)
  {
    PrintedPattern(mask, 0);
    assert Printed(mask, 0) == Printed(mask, 0) + Pattern(mask, 0);
    PatternLength(mask, SUMMARY_BITS);
    PatternOnes(mask, SUMMARY_BITS);
    PatternRoundTrip(mask, SUMMARY_BITS);
  }

  /** What the summary prints for the MPD in `slot` with enable mask `mask`. */
  predicate Describes(line: SummaryLine, slot: nat, mask: nat, errSlots: set<nat>)
  {
    if mask == 0 then line == NoApvLine(slot)
    else line == ApvLine(slot, Pattern(mask, SUMMARY_BITS), Ones(mask, SUMMARY_BITS), slot in errSlots)
  }

  /** The summary loop `for (impd = 0; impd < fnMPD; impd++)`: one line per
      MPD, in mpdSlot order. */
  method Summary(mpds: seq<Mpd>, enableMask: nat -> nat, errSlots: set<nat>) returns (lines: seq<SummaryLine>)
    ensures |lines| == |mpds|
    ensures forall k :: 0 <= k < |mpds| ==>
              Describes(lines[k], mpds[k].slot, enableMask(mpds[k].slot), errSlots)
  {
    lines := [];
    var k := 0;
    while k < |mpds|
      invariant 0 <= k <= |mpds|
      invariant |lines| == k
      invariant forall j :: 0 <= j < k ==>
                  Describes(lines[j], mpds[j].slot, enableMask(mpds[j].slot), errSlots)
    {
      var line := SummaryLineFor(mpds[k].slot, enableMask(mpds[k].slot), errSlots);
      lines := lines + [line];
      k := k + 1;
    }
  }

  /** One pass of the summary loop: the line printed for the MPD in `slot`. */
  method SummaryLineFor(slot: nat, mask: nat, errSlots: set<nat>) returns (line: SummaryLine)
    ensures Describes(line, slot, mask, errSlots)
  {
    line := NoApvLine(slot);
    if mask != 0 {
      var pattern, napv := SummaryPattern(mask);
      line := ApvLine(slot, pattern, napv, slot in errSlots);
    }
  }

  // ---------------------------------------------------------------------
  // ssp_mpd_setup

  /** The answers ssp_mpd_setup gets: sspMpdConfigInit, mpdGetSSPFiberMask,
      whether the pedestal file opened, the discovered MPDs in mpdSlot
      order (fnMPD is their number), and mpdGetApvEnableMask by slot. */
  datatype Hardware = Hardware(configInitOk: bool, fiberMask: nat, pedFileFound: bool,
                               mpds: seq<Mpd>, enableMask: nat -> nat)

  /** Where the set-up stopped. */
  datatype Phase = AlreadyRan | ConfigFileError | NoMpd | Configured

  datatype SetupResult = SetupResult(justOnce: int, phase: Phase, fibers: seq<nat>, pedMode: int,
                                     errors: Errors, lines: seq<SummaryLine>)

  /** The part of ssp_mpd_setup before the MPD loop. The body runs only on
      a first call; a configuration file error stops before any fiber is
      enabled; without a pedestal file the subtraction mode drops to 0;
      without an MPD there is nothing to configure. `Configured` here means
      the MPD loop comes next. */
  method BringUp(justOnce: int, pedMode: int, h: Hardware) returns (phase: Phase, fibers: seq<nat>, mode: int)
    ensures (phase == AlreadyRan) == (justOnce > 0)
    ensures (phase == ConfigFileError) == (justOnce <= 0 && !h.configInitOk)
    ensures (phase == NoMpd) == (justOnce <= 0 && h.configInitOk && |h.mpds| == 0)
    ensures phase == AlreadyRan || phase == ConfigFileError ==> fibers == [] && mode == pedMode
    ensures phase == NoMpd || phase == Configured ==>
              (forall b: nat :: b in fibers <==> Bit(h.fiberMask, b)) &&
              mode == (if h.pedFileFound then pedMode else 0)
  {
    if justOnce > 0 {
      return AlreadyRan, [], pedMode;
    }
    if !h.configInitOk {
      return ConfigFileError, [], pedMode;
    }
    fibers := EnableFibers(h.fiberMask);
    mode := if h.pedFileFound then pedMode else 0;
    phase := if |h.mpds| == 0 then NoMpd else Configured;
  }

  /** ssp_mpd_setup with the per-slot error status: after the bring-up,
      every MPD is configured and gets one summary line, in mpdSlot order,
      and each slot is flagged for its own errors only. */
  method Setup(justOnce: int, pedMode: int, h: Hardware) returns (r: SetupResult)
    ensures r.justOnce == justOnce + 1
    ensures (r.phase == AlreadyRan) == (justOnce > 0)
    ensures (r.phase == ConfigFileError) == (justOnce <= 0 && !h.configInitOk)
    ensures (r.phase == NoMpd) == (justOnce <= 0 && h.configInitOk && |h.mpds| == 0)
    ensures r.phase == AlreadyRan || r.phase == ConfigFileError ==> r.fibers == [] && r.pedMode == pedMode
    ensures r.phase == NoMpd || r.phase == Configured ==>
              (forall b: nat :: b in r.fibers <==> Bit(h.fiberMask, b)) &&
              r.pedMode == (if h.pedFileFound then pedMode else 0)
    ensures r.phase != Configured ==> r.errors == NO_ERRORS && r.lines == []
    ensures r.phase == Configured ==>
              (forall s :: s in r.errors.slots <==> FlaggedIn(h.mpds, s)) &&
              (r.errors.status <==> AnyOwnError(h.mpds)) &&
              |r.lines| == |h.mpds| &&
              forall k :: 0 <= k < |h.mpds| ==>
                Describes(r.lines[k], h.mpds[k].slot, h.enableMask(h.mpds[k].slot), r.errors.slots)
  {
    var phase, fibers, mode := BringUp(justOnce, pedMode, h);
    if phase != Configured {
      return SetupResult(justOnce + 1, phase, fibers, mode, NO_ERRORS, []);
    }
    var errors := Configure(h.mpds, NO_ERRORS);
    ConfigureFlags(h.mpds, NO_ERRORS);
    var lines := Summary(h.mpds, h.enableMask, errors.slots);
    r := SetupResult(justOnce + 1, Configured, fibers, mode, errors, lines);
  }

  /** ssp_mpd_setup as written: the same bring-up and summary, but the MPD
      loop carries error_status from one MPD to the next, so a slot is
      flagged also for an own error of any MPD before it. */
  method SetupAsWritten(justOnce: int, pedMode: int, h: Hardware) returns (r: SetupResult)
    ensures r.justOnce == justOnce + 1
    ensures (r.phase == AlreadyRan) == (justOnce > 0)
    ensures (r.phase == ConfigFileError) == (justOnce <= 0 && !h.configInitOk)
    ensures (r.phase == NoMpd) == (justOnce <= 0 && h.configInitOk && |h.mpds| == 0)
    ensures r.phase != Configured ==> r.errors == NO_ERRORS && r.lines == []
    ensures r.phase == Configured ==>
              (forall s :: s in r.errors.slots <==> CarriedIn(h.mpds, s, false)) &&
              (r.errors.status <==> AnyOwnError(h.mpds)) &&
              |r.lines| == |h.mpds| &&
              forall k :: 0 <= k < |h.mpds| ==>
                Describes(r.lines[k], h.mpds[k].slot, h.enableMask(h.mpds[k].slot), r.errors.slots)
  {
    var phase, fibers, mode := BringUp(justOnce, pedMode, h);
    if phase != Configured {
      return SetupResult(justOnce + 1, phase, fibers, mode, NO_ERRORS, []);
    }
    var errors := ConfigureAsWritten(h.mpds, NO_ERRORS);
    AsWrittenFlags(h.mpds, NO_ERRORS);
    var lines := Summary(h.mpds, h.enableMask, errors.slots);
    r := SetupResult(justOnce + 1, Configured, fibers, mode, errors, lines);
  }
}
