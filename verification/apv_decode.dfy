/** The APV data-word decoder of sspPrintBlock (ssp_mpd_rol_include.c): each
    buffer word is byte-swapped; a word with bit 31 set starts a new MPD
    block and names its tag; inside a block of tag 5 the first word is the MPD
    header and every later three words carry six 13-bit signed samples with
    the channel and APV numbers spread over their top bits. The printed
    lines are modelled as a sequence of records. */
module ApvDecode {
  import opened Daq

  /** The tag of an MPD APV data block. */
  const MPD_TAG: bv32 := 5
  const SAMPLE_MIN: int := -4096
  const SAMPLE_MAX: int := 4095

  /** `int d[6]`. */
  type Samples = s: seq<int> | |s| == 6 witness [0, 0, 0, 0, 0, 0]

  /** One printed line: the MPD header, or one channel of one APV with its six samples. */
  datatype Record =
    | MpdHeader(rotary: bv32, fiber: bv32)
    | ApvSamples(apv: bv32, ch: bv32, samples: Samples)

  /** The decoder's locals that live across words: `tag`, `pos`, `d`, `ch`, `apv`. */
  datatype Decoder = Decoder(tag: bv32, pos: int, d: Samples, ch: bv32, apv: bv32)

  /** `tag`, `ch`, `apv` and `d` have no initialiser in the source; the model
      starts them at 0, so words before the first block header are skipped. */
  const INITIAL: Decoder := Decoder(0, 0, [0, 0, 0, 0, 0, 0], 0, 0)

  predicate InRange(x: int)
  {
    SAMPLE_MIN <= x <= SAMPLE_MAX
  }

  /** What every decoder state reached from INITIAL satisfies: samples in
      range, a 5-bit APV number, a 7-bit channel, and only the low five
      channel bits set right after the first word of a group. */
  predicate WellFormed(st: Decoder)
  {
    st.pos >= 0 &&
    (forall i :: 0 <= i < 6 ==> InRange(st.d[i])) &&
    st.apv < 32 && st.ch < 128 &&
    (st.pos >= 1 && (st.pos - 1) % 3 == 1 ==> st.ch < 32)
  }

  /** A printed line whose numbers are in range: channel in [0, 127], APV
      in [0, 31], samples in [-4096, 4095]. */
  predicate Plausible(rec: Record)
  {
    rec.ApvSamples? ==> rec.ch < 128 && rec.apv < 32 && forall i :: 0 <= i < 6 ==> InRange(rec.samples[i])
  }

  /** A 13-bit field read as a signed number: bit 12 is the sign bit. */
  function SignExtend13(f: bv32): (r: int)
    requires f < 0x2000
    ensures InRange(r)
    ensures r == f as int || r == f as int - 0x2000
    ensures r < 0 <==> f >= 0x1000
  {
    var u := f as int;
    if u >= 0x1000 then u - 0x2000 else u
  }

  /** Bit 12 of a 13-bit field, the bit the source tests, is set exactly
      when the sample comes out negative. */
  lemma SignBit(f: bv32)
    requires f < 0x2000
    ensures f & 0x1000 != 0 <==> SignExtend13(f) < 0
  {
  }

  /** The source or-s 0xfffff000 into a field with bit 12 set; modulo 2^32
      that is subtracting 0x2000. */
  lemma SignExtendByOr(f: bv32)
    requires f < 0x2000 && f & 0x1000 != 0
    ensures f | 0xffff_f000 == f - 0x2000
  {
  }

  /** The sample in the 13 bits at `shift` of a data word. */
  function Sample(val: bv32, shift: bv32): (r: int)
    requires shift <= 19
    ensures InRange(r)
  {
    SignExtend13((val >> shift) & 0x1fff)
  }

  /** The result of one word: the new decoder state and the lines printed. */
  datatype Out = Out(state: Decoder, records: seq<Record>)

  /** A data word `val` (already swapped) inside a tag-5 block: its two
      samples go to `d[2*idx]` and `d[2*idx+1]` for `idx = (pos-1) % 3`; the
      first word of a group sets the low channel bits, the second or-s in
      the two high ones, the third sets the APV number and prints the line. */
  function DataWordStep(st: Decoder, val: bv32): (r: Out)
    requires WellFormed(st) && st.tag == MPD_TAG && st.pos >= 1
    ensures WellFormed(r.state) && r.state.tag == MPD_TAG && r.state.pos == st.pos + 1
    ensures |r.records| <= 1
  {
    var idx := (st.pos - 1) % 3;
    var d := st.d[2 * idx := Sample(val, 0)][2 * idx + 1 := Sample(val, 13)];
    if idx == 0 then
      Out(st.(d := d, ch := (val >> 26) & 0x1f, pos := st.pos + 1), [])
    else if idx == 1 then
      ChannelBound(st.ch, (val >> 26) & 0x3);
      Out(st.(d := d, ch := st.ch | (((val >> 26) & 0x3) << 5), pos := st.pos + 1), [])
    else
      var apv := (val >> 26) & 0x1f;
      Out(st.(d := d, apv := apv, pos := st.pos + 1), [ApvSamples(apv, st.ch, d)])
  }

  /** One pass of the loop body on the raw buffer word `raw`. */
  function DecodeWord(st: Decoder, raw: bv32): (r: Out)
    requires WellFormed(st)
    ensures WellFormed(r.state)
    ensures |r.records| <= 1
    ensures r.records != [] ==> r.state.tag == MPD_TAG
    ensures r.state.tag != MPD_TAG ==> r.records == [] && r.state.d == st.d && r.state.ch == st.ch
  {
    var val := LSwap(raw);
    var st1 := if val & 0x8000_0000 != 0 then st.(tag := (val >> 27) & 0xf, pos := 0) else st;
    if st1.tag != MPD_TAG then Out(st1, [])
    else if st1.pos == 0 then Out(st1.(pos := 1), [MpdHeader(val & 0x1f, (val >> 16) & 0x1f)])
    else DataWordStep(st1, val)
  }

  /** A word with bit 31 set (after the swap) names the tag of a new block;
      any other word leaves the tag alone. */
  lemma StepTag(st: Decoder, raw: bv32)
    requires WellFormed(st)
    ensures LSwap(raw) & 0x8000_0000 != 0 ==> DecodeWord(st, raw).state.tag == (LSwap(raw) >> 27) & 0xf
    ensures LSwap(raw) & 0x8000_0000 == 0 ==> DecodeWord(st, raw).state.tag == st.tag
  {
  }

  /** Or-ing two more bits above five low bits gives the 7-bit channel low + 32 * high. */
  lemma ChannelBound(low: bv32, high: bv32)
    requires low < 32 && high < 4
    ensures low | (high << 5) < 128
  {
  }

  /** The decoder over a sequence of raw words, from state `st`. */
  function DecodeFrom(st: Decoder, words: seq<bv32>): (r: Out)
    requires WellFormed(st)
    ensures WellFormed(r.state)
    ensures |r.records| <= |words|
    decreases |words|
  {
    if |words| == 0 then Out(st, [])
    else
      var first := DecodeWord(st, words[0]);
      var rest := DecodeFrom(first.state, words[1..]);
      Out(rest.state, first.records + rest.records)
  }

  /** sspPrintBlock on a buffer of `dCnt == |words|` words. */
  function PrintBlock(words: seq<bv32>): (r: seq<Record>)
    ensures |r| <= |words|
  {
    DecodeFrom(INITIAL, words).records
  }

  /** Decoding a concatenation decodes the second part from where the first left off. */
  lemma {:induction false} DecodeAppend(st: Decoder, a: seq<bv32>, b: seq<bv32>)
    requires WellFormed(st)
    ensures DecodeFrom(st, a + b).records ==
              DecodeFrom(st, a).records + DecodeFrom(DecodeFrom(st, a).state, b).records
    ensures DecodeFrom(st, a + b).state == DecodeFrom(DecodeFrom(st, a).state, b).state
    decreases |a|
  {
    if |a| == 0 {
      assert a + b == b;
    } else {
      assert (a + b)[0] == a[0];
      assert (a + b)[1..] == a[1..] + b;
      DecodeAppend(DecodeWord(st, a[0]).state, a[1..], b);
    }
  }

  /** The line one word prints, if any, is in range. */
  lemma WordInRange(st: Decoder, raw: bv32)
    requires WellFormed(st)
    ensures forall k :: 0 <= k < |DecodeWord(st, raw).records| ==> Plausible(DecodeWord(st, raw).records[k])
  {
  }

  /** Every line the decoder prints is in range. */
  lemma {:induction false} PrintedInRange(st: Decoder, words: seq<bv32>)
    requires WellFormed(st)
    ensures forall k :: 0 <= k < |DecodeFrom(st, words).records| ==> Plausible(DecodeFrom(st, words).records[k])
    decreases |words|
  {
    if |words| > 0 {
      var first := DecodeWord(st, words[0]);
      var rest := DecodeFrom(first.state, words[1..]);
      WordInRange(st, words[0]);
      PrintedInRange(first.state, words[1..]);
      var all := first.records + rest.records;
      forall k | 0 <= k < |all|
        ensures Plausible(all[k])
      {
        if k >= |first.records| {
          assert all[k] == rest.records[k - |first.records|];
        }
      }
    }
  }

  // ---------------------------------------------------------------------
  // The data layout the decoder expects

  /** An MPD block header as it sits in the event builder: bit 31 set, the
      tag in bits 27-30, the SSP fiber in bits 16-20, the MPD rotary switch
      in bits 0-4 (before the byte swap of the VME transfer). */
  function HeaderWord(tag: bv32, rotary: bv32, fiber: bv32): bv32
    requires tag < 16 && rotary < 32 && fiber < 32
  {
    0x8000_0000 | (tag << 27) | (fiber << 16) | rotary
  }

  /** A data word: two 13-bit sample fields in bits 0-12 and 13-25, five
      more bits in 26-30, bit 31 clear. */
  function DataWord(f0: bv32, f1: bv32, top: bv32): bv32
    requires f0 < 0x2000 && f1 < 0x2000 && top < 32
  {
    f0 | (f1 << 13) | (top << 26)
  }

  /** One channel of one APV as the MPD sends it: APV number, channel
      number and the six raw 13-bit sample fields. */
  datatype Group = Group(apv: bv32, ch: bv32, fields: seq<bv32>)

  predicate ValidGroup(g: Group)
  {
    g.apv < 32 && g.ch < 128 && |g.fields| == 6 && forall i :: 0 <= i < 6 ==> g.fields[i] < 0x2000
  }

  /** The three words of a group: the low channel bits ride on the first,
      the two high ones on the second, the APV number on the third. */
  function EncodeGroup(g: Group): (ws: seq<bv32>)
    requires ValidGroup(g)
    ensures |ws| == 3
  {
    [LSwap(DataWord(g.fields[0], g.fields[1], g.ch & 0x1f)),
     LSwap(DataWord(g.fields[2], g.fields[3], g.ch >> 5)),
     LSwap(DataWord(g.fields[4], g.fields[5], g.apv))]
  }

  function EncodeGroups(gs: seq<Group>): (ws: seq<bv32>)
    requires forall i :: 0 <= i < |gs| ==> ValidGroup(gs[i])
    ensures |ws| == 3 * |gs|
  {
    if |gs| == 0 then [] else EncodeGroups(gs[..|gs| - 1]) + EncodeGroup(gs[|gs| - 1])
  }

  /** A whole tag-5 MPD block as read from the VME bus. */
  function EncodeBlock(rotary: bv32, fiber: bv32, gs: seq<Group>): seq<bv32>
    requires rotary < 32 && fiber < 32
    requires forall i :: 0 <= i < |gs| ==> ValidGroup(gs[i])
  {
    [LSwap(HeaderWord(5, rotary, fiber))] + EncodeGroups(gs)
  }

  /** The six samples of a group, each field read as a signed number. */
  function GroupSamples(g: Group): Samples
    requires ValidGroup(g)
  {
    [SignExtend13(g.fields[0]), SignExtend13(g.fields[1]), SignExtend13(g.fields[2]),
     SignExtend13(g.fields[3]), SignExtend13(g.fields[4]), SignExtend13(g.fields[5])]
  }

  /** The lines the decoder should print for a run of groups. */
  function Expected(gs: seq<Group>): (rs: seq<Record>)
    requires forall i :: 0 <= i < |gs| ==> ValidGroup(gs[i])
    ensures |rs| == |gs|
  {
    if |gs| == 0 then []
    else
      var g := gs[|gs| - 1];
      Expected(gs[..|gs| - 1]) + [ApvSamples(g.apv, g.ch, GroupSamples(g))]
  }

  // ---------------------------------------------------------------------
  // Field extraction facts

  lemma DataWordFields(f0: bv32, f1: bv32, top: bv32)
    requires f0 < 0x2000 && f1 < 0x2000 && top < 32
    ensures var w := DataWord(f0, f1, top);
            w & 0x8000_0000 == 0 &&
            (w >> 0) & 0x1fff == f0 &&
            (w >> 13) & 0x1fff == f1 &&
            (w >> 26) & 0x1f == top &&
            (w >> 26) & 0x3 == top & 0x3
  {
  }

  lemma HeaderFields(tag: bv32, rotary: bv32, fiber: bv32)
    requires tag < 16 && rotary < 32 && fiber < 32
    ensures var h := HeaderWord(tag, rotary, fiber);
            h & 0x8000_0000 != 0 && (h >> 27) & 0xf == tag && h & 0x1f == rotary && (h >> 16) & 0x1f == fiber
  {
  }

  lemma ChannelSplit(ch: bv32)
    requires ch < 128
    ensures (ch & 0x1f) | ((ch >> 5) << 5) == ch
    ensures ch & 0x1f < 32 && ch >> 5 < 4
  {
  }

  // ---------------------------------------------------------------------
  // Round trip

  /** Inside a tag-5 block past its header, a word without bit 31 is a data word. */
  lemma DataWordDecodes(st: Decoder, w: bv32)
    requires WellFormed(st) && st.tag == MPD_TAG && st.pos >= 1
    requires w & 0x8000_0000 == 0
    ensures DecodeWord(st, LSwap(w)) == DataWordStep(st, w)
  {
    LSwapInvolution(w);
  }

  /** The first word of a group stores samples 0 and 1 and the low five channel bits. */
  lemma FirstWord(st: Decoder, f0: bv32, f1: bv32, low: bv32)
    requires WellFormed(st) && st.tag == MPD_TAG && st.pos >= 1 && (st.pos - 1) % 3 == 0
    requires f0 < 0x2000 && f1 < 0x2000 && low < 32
    ensures DecodeWord(st, LSwap(DataWord(f0, f1, low))) ==
              Out(st.(d := st.d[0 := SignExtend13(f0)][1 := SignExtend13(f1)], ch := low, pos := st.pos + 1), [])
  {
    DataWordFields(f0, f1, low);
    DataWordDecodes(st, DataWord(f0, f1, low));
  }

  /** The second word stores samples 2 and 3 and or-s in the two high channel bits. */
  lemma SecondWord(st: Decoder, f2: bv32, f3: bv32, high: bv32)
    requires WellFormed(st) && st.tag == MPD_TAG && st.pos >= 1 && (st.pos - 1) % 3 == 1
    requires f2 < 0x2000 && f3 < 0x2000 && high < 4
    ensures DecodeWord(st, LSwap(DataWord(f2, f3, high))) ==
              Out(st.(d := st.d[2 := SignExtend13(f2)][3 := SignExtend13(f3)], ch := st.ch | (high << 5), pos := st.pos + 1), [])
  {
    DataWordFields(f2, f3, high);
    DataWordDecodes(st, DataWord(f2, f3, high));
  }

  /** The third word stores samples 4 and 5 and the APV number, and prints the line. */
  lemma ThirdWord(st: Decoder, f4: bv32, f5: bv32, apv: bv32)
    requires WellFormed(st) && st.tag == MPD_TAG && st.pos >= 1 && (st.pos - 1) % 3 == 2
    requires f4 < 0x2000 && f5 < 0x2000 && apv < 32
    ensures var d := st.d[4 := SignExtend13(f4)][5 := SignExtend13(f5)];
            DecodeWord(st, LSwap(DataWord(f4, f5, apv))) ==
              Out(st.(d := d, apv := apv, pos := st.pos + 1), [ApvSamples(apv, st.ch, d)])
  {
    DataWordFields(f4, f5, apv);
    DataWordDecodes(st, DataWord(f4, f5, apv));
  }

  /** Decoding one word is one step. */
  lemma OneWord(st: Decoder, w: bv32)
    requires WellFormed(st)
    ensures DecodeFrom(st, [w]) == DecodeWord(st, w)
  {
    assert [w][1..] == [];
    var o := DecodeWord(st, w);
    assert DecodeFrom(o.state, []) == Out(o.state, []);
    assert o.records + [] == o.records;
  }

  /** Decoding a word in front of others steps once and goes on from there. */
  lemma ConsWord(st: Decoder, w: bv32, ws: seq<bv32>)
    requires WellFormed(st)
    ensures var o := DecodeWord(st, w);
            var rest := DecodeFrom(o.state, ws);
            DecodeFrom(st, [w] + ws) == Out(rest.state, o.records + rest.records)
  {
    assert ([w] + ws)[1..] == ws;
  }

  /** The decoder after the first word of group `g`. */
  function AfterFirst(st: Decoder, g: Group): Decoder
    requires ValidGroup(g)
  {
    st.(d := st.d[0 := SignExtend13(g.fields[0])][1 := SignExtend13(g.fields[1])], ch := g.ch & 0x1f, pos := st.pos + 1)
  }

  /** The decoder after the second word of group `g`. */
  function AfterSecond(st: Decoder, g: Group): Decoder
    requires ValidGroup(g)
  {
    var s1 := AfterFirst(st, g);
    s1.(d := s1.d[2 := SignExtend13(g.fields[2])][3 := SignExtend13(g.fields[3])], ch := g.ch, pos := st.pos + 2)
  }

  lemma GroupFirstStep(st: Decoder, g: Group)
    requires WellFormed(st) && ValidGroup(g)
    requires st.tag == MPD_TAG && st.pos >= 1 && (st.pos - 1) % 3 == 0
    ensures DecodeWord(st, EncodeGroup(g)[0]) == Out(AfterFirst(st, g), [])
  {
    ChannelSplit(g.ch);
    FirstWord(st, g.fields[0], g.fields[1], g.ch & 0x1f);
  }

  lemma GroupSecondStep(st: Decoder, g: Group)
    requires WellFormed(st) && ValidGroup(g)
    requires st.tag == MPD_TAG && st.pos >= 1 && (st.pos - 1) % 3 == 0
    ensures WellFormed(AfterFirst(st, g))
    ensures DecodeWord(AfterFirst(st, g), EncodeGroup(g)[1]) == Out(AfterSecond(st, g), [])
  {
    ChannelSplit(g.ch);
    GroupFirstStep(st, g);
    SecondWord(AfterFirst(st, g), g.fields[2], g.fields[3], g.ch >> 5);
  }

  lemma GroupThirdStep(st: Decoder, g: Group)
    requires WellFormed(st) && ValidGroup(g)
    requires st.tag == MPD_TAG && st.pos >= 1 && (st.pos - 1) % 3 == 0
    ensures WellFormed(AfterSecond(st, g))
    ensures DecodeWord(AfterSecond(st, g), EncodeGroup(g)[2]) ==
              Out(st.(d := GroupSamples(g), ch := g.ch, apv := g.apv, pos := st.pos + 3),
                  [ApvSamples(g.apv, g.ch, GroupSamples(g))])
  {
    GroupSecondStep(st, g);
    var s2 := AfterSecond(st, g);
    ThirdWord(s2, g.fields[4], g.fields[5], g.apv);
    assert s2.d[4 := SignExtend13(g.fields[4])][5 := SignExtend13(g.fields[5])] == GroupSamples(g);
  }

  /** The decoder sits in a tag-5 block at the start of a group: the next word is a first word. */
  predicate AtGroup(st: Decoder)
  {
    WellFormed(st) && st.tag == MPD_TAG && st.pos >= 1 && (st.pos - 1) % 3 == 0
  }

  /** Three words per group keep a group start at a group start. */
  lemma GroupPosition(pos: int, n: nat)
    requires pos >= 1 && (pos - 1) % 3 == 0
    ensures (pos + 3 * n - 1) % 3 == 0
  {
    assert pos + 3 * n - 1 == (pos - 1) + 3 * n;
  }

  /** In a tag-5 block, at the start of a group (the next word is a first
      word), the three words of a group print exactly its record and leave
      the decoder at the start of the next group. */
  lemma GroupRoundTrip(st: Decoder, g: Group)
    requires WellFormed(st) && ValidGroup(g)
    requires st.tag == MPD_TAG && st.pos >= 1 && (st.pos - 1) % 3 == 0
    ensures DecodeFrom(st, EncodeGroup(g)).records == [ApvSamples(g.apv, g.ch, GroupSamples(g))]
    ensures DecodeFrom(st, EncodeGroup(g)).state.tag == MPD_TAG
    ensures DecodeFrom(st, EncodeGroup(g)).state.pos == st.pos + 3
  {
    var ws := EncodeGroup(g);
    var s1, s2 := AfterFirst(st, g), AfterSecond(st, g);
    var rec := ApvSamples(g.apv, g.ch, GroupSamples(g));
    var s3 := st.(d := GroupSamples(g), ch := g.ch, apv := g.apv, pos := st.pos + 3);
    GroupFirstStep(st, g);
    GroupSecondStep(st, g);
    GroupThirdStep(st, g);
    assert DecodeFrom(s2, [ws[2]]) == Out(s3, [rec]) by {
      OneWord(s2, ws[2]);
    }
    assert DecodeFrom(s1, [ws[1], ws[2]]) == Out(s3, [rec]) by {
      ConsWord(s1, ws[1], [ws[2]]);
      assert [ws[1]] + [ws[2]] == [ws[1], ws[2]];
    }
    assert DecodeFrom(st, ws) == Out(s3, [rec]) by {
      ConsWord(st, ws[0], [ws[1], ws[2]]);
      assert [ws[0]] + [ws[1], ws[2]] == ws;
    }
  }

  /** Peeling the last group off a run: its words `b` come last and its line
      `rec` is printed last, and from the start of any group in a tag-5
      block those words print just that line. */
  lemma LastGroup(gs: seq<Group>, init: seq<Group>) returns (b: seq<bv32>, rec: Record)
    requires |gs| > 0 && forall i :: 0 <= i < |gs| ==> ValidGroup(gs[i])
    requires init == gs[..|gs| - 1]
    ensures forall i :: 0 <= i < |init| ==> ValidGroup(init[i])
    ensures EncodeGroups(gs) == EncodeGroups(init) + b
    ensures Expected(gs) == Expected(init) + [rec]
    ensures forall mid: Decoder :: AtGroup(mid) ==>
              DecodeFrom(mid, b).records == [rec] && DecodeFrom(mid, b).state.tag == MPD_TAG &&
              DecodeFrom(mid, b).state.pos == mid.pos + 3 && AtGroup(DecodeFrom(mid, b).state)
  {
    var g := gs[|gs| - 1];
    b, rec := EncodeGroup(g), ApvSamples(g.apv, g.ch, GroupSamples(g));
    forall mid: Decoder | AtGroup(mid)
      ensures DecodeFrom(mid, b).records == [rec] && DecodeFrom(mid, b).state.tag == MPD_TAG &&
              DecodeFrom(mid, b).state.pos == mid.pos + 3 && AtGroup(DecodeFrom(mid, b).state)
    {
      GroupRoundTrip(mid, g);
      GroupPosition(mid.pos, 1);
    }
  }

  /** Words `b` that print just `rec` from the start of any group, placed
      after `n` groups' worth of words `a`, add `rec` to what `a` printed. */
  lemma AppendGroup(st: Decoder, a: seq<bv32>, ra: seq<Record>, n: nat, b: seq<bv32>, rec: Record)
    requires AtGroup(st)
    requires DecodeFrom(st, a).records == ra && DecodeFrom(st, a).state.tag == MPD_TAG
    requires DecodeFrom(st, a).state.pos == st.pos + 3 * n && AtGroup(DecodeFrom(st, a).state)
    requires forall mid: Decoder :: AtGroup(mid) ==>
               DecodeFrom(mid, b).records == [rec] && DecodeFrom(mid, b).state.tag == MPD_TAG &&
               DecodeFrom(mid, b).state.pos == mid.pos + 3 && AtGroup(DecodeFrom(mid, b).state)
    ensures DecodeFrom(st, a + b).records == ra + [rec]
    ensures DecodeFrom(st, a + b).state.tag == MPD_TAG
    ensures DecodeFrom(st, a + b).state.pos == st.pos + 3 * (n + 1)
    ensures AtGroup(DecodeFrom(st, a + b).state)
  {
    DecodeAppend(st, a, b);
  }

  /** A run of groups after the header prints their records in order. */
  lemma {:induction false} GroupsRoundTrip(st: Decoder, gs: seq<Group>)
    requires WellFormed(st) && forall i :: 0 <= i < |gs| ==> ValidGroup(gs[i])
    requires st.tag == MPD_TAG && st.pos >= 1 && (st.pos - 1) % 3 == 0
    ensures DecodeFrom(st, EncodeGroups(gs)).records == Expected(gs)
    ensures DecodeFrom(st, EncodeGroups(gs)).state.tag == MPD_TAG
    ensures DecodeFrom(st, EncodeGroups(gs)).state.pos == st.pos + 3 * |gs|
    ensures AtGroup(DecodeFrom(st, EncodeGroups(gs)).state)
    decreases |gs|
  {
    if |gs| == 0 {
      assert EncodeGroups(gs) == [];
    } else {
      var init := gs[..|gs| - 1];
      var b, rec := LastGroup(gs, init);
      GroupsRoundTrip(st, init);
      AppendGroup(st, EncodeGroups(init), Expected(init), |init|, b, rec);
    }
  }

  /** A tag-5 block header, whatever came before, prints the MPD line and
      positions the decoder at the first group. */
  lemma HeaderStep(st: Decoder, rotary: bv32, fiber: bv32)
    requires WellFormed(st) && rotary < 32 && fiber < 32
    ensures DecodeWord(st, LSwap(HeaderWord(5, rotary, fiber))) ==
              Out(st.(tag := MPD_TAG, pos := 1), [MpdHeader(rotary, fiber)])
  {
    HeaderFields(5, rotary, fiber);
    LSwapInvolution(HeaderWord(5, rotary, fiber));
  }

  /** Decoding an encoded tag-5 block prints its header line and then one
      line per group, whatever state the decoder was in. */
  lemma BlockRoundTrip(st: Decoder, rotary: bv32, fiber: bv32, gs: seq<Group>)
    requires WellFormed(st)
    requires rotary < 32 && fiber < 32
    requires forall i :: 0 <= i < |gs| ==> ValidGroup(gs[i])
    ensures DecodeFrom(st, EncodeBlock(rotary, fiber, gs)).records ==
              [MpdHeader(rotary, fiber)] + Expected(gs)
  {
    var h := LSwap(HeaderWord(5, rotary, fiber));
    var s1 := st.(tag := MPD_TAG, pos := 1);
    HeaderStep(st, rotary, fiber);
    GroupsRoundTrip(s1, gs);
    ConsWord(st, h, EncodeGroups(gs));
  }

  /** Only tag-5 blocks are decoded: after a header of any other tag, words
      without bit 31 print nothing and leave the decoder as the header left it. */
  lemma {:induction false} OtherTagsSkipped(st: Decoder, words: seq<bv32>)
    requires WellFormed(st) && st.tag != MPD_TAG
    requires forall i :: 0 <= i < |words| ==> LSwap(words[i]) & 0x8000_0000 == 0
    ensures DecodeFrom(st, words) == Out(st, [])
    decreases |words|
  {
    if |words| > 0 {
      StepTag(st, words[0]);
      OtherTagsSkipped(DecodeWord(st, words[0]).state, words[1..]);
    }
  }
}
