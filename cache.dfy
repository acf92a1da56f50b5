/** The observation cache as values: what `newPayloadBytesVal` and
    `newPayloadBitVal` decide and which cache bytes they leave behind.
    The class in module Converter runs these steps in place on two arrays
    and is proved to end in exactly the state these functions describe. */
module Cache {
  import opened Bytes
  import opened Layout
  import opened Wrappers

  /** payloadByteVal and payloadByteSeen. */
  datatype CacheState = CacheState(val: seq<byte>, seen: seq<byte>)

  predicate WellFormed(c: CacheState) { |c.val| == SizeValSeen && |c.seen| == SizeValSeen }

  /** The cache at power-up: every byte zero, nothing seen. */
  function EmptyCache(): (c: CacheState)
    ensures WellFormed(c)
    ensures forall s :: 0 <= s < SizeValSeen ==> c.seen[s] == 0 && c.val[s] == 0
  {
    CacheState(seq(SizeValSeen, _ => 0), seq(SizeValSeen, _ => 0))
  }

  /** The output settings the cache consults: outputFilter and outputMode come
      from the bridge configuration, maxOutputFilter from the dispatch. */
  datatype Dial = Dial(outputFilter: nat, maxOutputFilter: nat, outputMode: bv32)

  /** `haConfig || (outputMode & 0x10000)`: whether a verdict is passed on at all. */
  predicate Publishes(haConfig: bool, mode: bv32) { haConfig || mode & 0x10000 != 0 }

  /** `outputFilter <= maxOutputFilter`: changes of this parameter are reported. */
  predicate ShowsChanges(d: Dial) { d.outputFilter <= d.maxOutputFilter }

  /** The return value of an observation, the cache it leaves, and whether it
      triggered a discovery publication. */
  datatype Observation = Observation(cache: CacheState, reported: bool, announce: bool)

  /** The loop state of `newPayloadBytesVal`: cache, newByte and pubHA. */
  datatype StepState = StepState(cache: CacheState, verdict: bool, announce: bool)

  // ---------------------------------------------------------------------
  // The byte path

  /** A slot is fresh for payload byte i when it was never seen or holds another value. */
  predicate Fresh(c: CacheState, a: Address, p: seq<byte>, i: nat)
    requires WellFormed(c) && InTable(a) && Admits(a, i) && i < |p|
  {
    SlotInBounds(a, i);
    c.seen[Slot(a, i)] == 0 || c.val[Slot(a, i)] != p[i]
  }

  /** One iteration of the loop over payload byte i. */
  function ByteStep(st: StepState, a: Address, p: seq<byte>, i: nat, saveSeen: bool, haConfig: bool, d: Dial): (r: StepState)
    requires WellFormed(st.cache) && InTable(a) && Admits(a, i) && i < |p|
    ensures WellFormed(r.cache)
  {
    SlotInBounds(a, i);
    var s := Slot(a, i);
    var c := st.cache;
    if c.seen[s] != 0 then
      if c.val[s] != p[i] then
        StepState(if saveSeen then c.(val := c.val[s := p[i]]) else c, ShowsChanges(d), st.announce)
      else st
    else
      StepState(if saveSeen then CacheState(c.val[s := p[i]], c.seen[s := 0xFF]) else c,
                true, if saveSeen then haConfig else st.announce)
  }

  /** The loop over payload bytes lo .. hi-1, in increasing order. */
  function Scan(c: CacheState, a: Address, p: seq<byte>, lo: nat, hi: nat, saveSeen: bool, haConfig: bool, d: Dial): (r: StepState)
    requires WellFormed(c) && InTable(a) && lo <= hi <= Nr(a) && hi <= |p|
    ensures WellFormed(r.cache)
    decreases hi - lo
  {
    if hi == lo then StepState(c, d.outputFilter == 0, false)
    else ByteStep(Scan(c, a, p, lo, hi - 1, saveSeen, haConfig, d), a, p, hi - 1, saveSeen, haConfig, d)
  }

  /** newPayloadBytesVal(src, type, index, payload, haConfig, length, saveSeen). */
  function ObserveBytes(c: CacheState, src: byte, ptype: byte, index: nat, p: seq<byte>,
                        haConfig: bool, length: nat, saveSeen: bool, d: Dial): (o: Observation)
    requires WellFormed(c) && index < |p|
    ensures WellFormed(o.cache)
  {
    var pub := Publishes(haConfig, d.outputMode);
    match ByteAddress(src, ptype)
    case None => Observation(c, pub, false)
    case Some(a) =>
      if !Admits(a, index) then Observation(c, pub, false)
      else if index + 1 < length then Observation(c, false, false)
      else
        var r := Scan(c, a, p, index + 1 - length, index + 1, saveSeen, haConfig, d);
        Observation(r.cache, pub && r.verdict, r.announce)
  }

  /** c2 agrees with c1 on every slot outside [from, to). */
  predicate AgreeOutside(c1: CacheState, c2: CacheState, from: int, to: int)
    requires WellFormed(c1) && WellFormed(c2)
  {
    forall s :: 0 <= s < SizeValSeen && !(from <= s < to) ==> c2.val[s] == c1.val[s] && c2.seen[s] == c1.seen[s]
  }

  /** The loop touches no slot outside bytestart + [lo, hi). */
  lemma {:induction false} ScanFrame(c: CacheState, a: Address, p: seq<byte>, lo: nat, hi: nat, saveSeen: bool, haConfig: bool, d: Dial)
    requires WellFormed(c) && InTable(a) && lo <= hi <= Nr(a) && hi <= |p|
    ensures AgreeOutside(c, Scan(c, a, p, lo, hi, saveSeen, haConfig, d).cache, Slot(a, lo), Slot(a, hi))
    decreases hi - lo
  {
    if hi > lo {
      ScanFrame(c, a, p, lo, hi - 1, saveSeen, haConfig, d);
      var st := Scan(c, a, p, lo, hi - 1, saveSeen, haConfig, d);
      assert Scan(c, a, p, lo, hi, saveSeen, haConfig, d) == ByteStep(st, a, p, hi - 1, saveSeen, haConfig, d);
      ByteStepFrame(st, a, p, hi - 1, saveSeen, haConfig, d);
      AgreeOutsideGrow(c, st.cache, ByteStep(st, a, p, hi - 1, saveSeen, haConfig, d).cache, Slot(a, lo), Slot(a, hi - 1));
    }
  }

  /** A cache agrees with itself outside any range. */
  lemma AgreeOutsideSame(c: CacheState, from: int, to: int)
    requires WellFormed(c)
    ensures AgreeOutside(c, c, from, to)
  {
  }

  /** A region followed by the slot right after it: agreeing outside each
      step's slots composes to agreeing outside the grown region. */
  lemma AgreeOutsideGrow(c1: CacheState, c2: CacheState, c3: CacheState, from: int, to: int)
    requires WellFormed(c1) && WellFormed(c2) && WellFormed(c3)
    requires from <= to && AgreeOutside(c1, c2, from, to) && AgreeOutside(c2, c3, to, to + 1)
    ensures AgreeOutside(c1, c3, from, to + 1)
  {
  }

  /** One step writes no slot but the one of payload byte i. */
  lemma ByteStepFrame(st: StepState, a: Address, p: seq<byte>, i: nat, saveSeen: bool, haConfig: bool, d: Dial)
    requires WellFormed(st.cache) && InTable(a) && Admits(a, i) && i < |p|
    ensures AgreeOutside(st.cache, ByteStep(st, a, p, i, saveSeen, haConfig, d).cache, Slot(a, i), Slot(a, i) + 1)
  {
    SlotInBounds(a, i);
  }

  /** Each step reads the slot as it was before the loop began. */
  lemma ScanReadsOld(c: CacheState, a: Address, p: seq<byte>, lo: nat, hi: nat, saveSeen: bool, haConfig: bool, d: Dial)
    requires WellFormed(c) && InTable(a) && lo < hi <= Nr(a) && hi <= |p|
    ensures (SlotInBounds(a, hi - 1);
      var mid := Scan(c, a, p, lo, hi - 1, saveSeen, haConfig, d).cache;
      mid.val[Slot(a, hi - 1)] == c.val[Slot(a, hi - 1)] && mid.seen[Slot(a, hi - 1)] == c.seen[Slot(a, hi - 1)])
  {
    SlotInBounds(a, hi - 1);
    ScanFrame(c, a, p, lo, hi - 1, saveSeen, haConfig, d);
  }

  /** Without saveSeen the cache is never written. */
  lemma {:induction false} ScanWithoutSave(c: CacheState, a: Address, p: seq<byte>, lo: nat, hi: nat, haConfig: bool, d: Dial)
    requires WellFormed(c) && InTable(a) && lo <= hi <= Nr(a) && hi <= |p|
    ensures Scan(c, a, p, lo, hi, false, haConfig, d).cache == c
    ensures !Scan(c, a, p, lo, hi, false, haConfig, d).announce
    decreases hi - lo
  {
    if hi > lo {
      ScanWithoutSave(c, a, p, lo, hi - 1, haConfig, d);
    }
  }

  /** With saveSeen every slot of the range ends up holding its payload
      byte, and a slot that was unseen ends up marked 0xFF. */
  lemma {:induction false} ScanStores(c: CacheState, a: Address, p: seq<byte>, lo: nat, hi: nat, haConfig: bool, d: Dial)
    requires WellFormed(c) && InTable(a) && lo <= hi <= Nr(a) && hi <= |p|
    ensures var r := Scan(c, a, p, lo, hi, true, haConfig, d).cache;
      forall i :: lo <= i < hi ==>
        (SlotInBounds(a, i);
         r.val[Slot(a, i)] == p[i] &&
         r.seen[Slot(a, i)] == (if c.seen[Slot(a, i)] == 0 then 0xFF else c.seen[Slot(a, i)]))
    decreases hi - lo
  {
    if hi > lo {
      ScanStores(c, a, p, lo, hi - 1, haConfig, d);
      ScanReadsOld(c, a, p, lo, hi, true, haConfig, d);
      var st := Scan(c, a, p, lo, hi - 1, true, haConfig, d);
      var r := Scan(c, a, p, lo, hi, true, haConfig, d).cache;
      assert r == ByteStep(st, a, p, hi - 1, true, haConfig, d).cache;
      ByteStepStores(st, a, p, hi - 1, haConfig, d);
      forall i | lo <= i < hi
        ensures (SlotInBounds(a, i);
          r.val[Slot(a, i)] == p[i] &&
          r.seen[Slot(a, i)] == (if c.seen[Slot(a, i)] == 0 then 0xFF else c.seen[Slot(a, i)]))
      {
        SlotInBounds(a, i);
        SlotInBounds(a, hi - 1);
        if i < hi - 1 {
          assert Slot(a, i) != Slot(a, hi - 1);
        }
      }
    }
  }

  /** One step with saveSeen stores payload byte i in its slot, marks it
      seen, and leaves every other slot alone. */
  lemma ByteStepStores(st: StepState, a: Address, p: seq<byte>, i: nat, haConfig: bool, d: Dial)
    requires WellFormed(st.cache) && InTable(a) && Admits(a, i) && i < |p|
    ensures (SlotInBounds(a, i);
      var r := ByteStep(st, a, p, i, true, haConfig, d).cache;
      && r.val[Slot(a, i)] == p[i]
      && r.seen[Slot(a, i)] == (if st.cache.seen[Slot(a, i)] == 0 then 0xFF else st.cache.seen[Slot(a, i)])
      && forall t :: 0 <= t < SizeValSeen && t != Slot(a, i) ==> r.val[t] == st.cache.val[t] && r.seen[t] == st.cache.seen[t])
  {
    SlotInBounds(a, i);
  }

  /** When no byte of the range is fresh, nothing is written and the verdict
      keeps its initial value `outputFilter == 0`. */
  lemma {:induction false} ScanQuiet(c: CacheState, a: Address, p: seq<byte>, lo: nat, hi: nat, saveSeen: bool, haConfig: bool, d: Dial)
    requires WellFormed(c) && InTable(a) && lo <= hi <= Nr(a) && hi <= |p|
    requires forall i :: lo <= i < hi ==> !Fresh(c, a, p, i)
    ensures Scan(c, a, p, lo, hi, saveSeen, haConfig, d) == StepState(c, d.outputFilter == 0, false)
    decreases hi - lo
  {
    if hi > lo {
      ScanQuiet(c, a, p, lo, hi - 1, saveSeen, haConfig, d);
      assert !Fresh(c, a, p, hi - 1);
      SlotInBounds(a, hi - 1);
    }
  }

  /** The verdict is decided by the LAST fresh byte of the range:
      true if it was unseen, `outputFilter <= maxOutputFilter` if it changed. */
  lemma {:induction false} ScanLastFreshDecides(c: CacheState, a: Address, p: seq<byte>, lo: nat, hi: nat, saveSeen: bool, haConfig: bool, d: Dial, j: nat)
    requires WellFormed(c) && InTable(a) && lo <= j < hi <= Nr(a) && hi <= |p|
    requires Fresh(c, a, p, j) && forall k :: j < k < hi ==> !Fresh(c, a, p, k)
    ensures (SlotInBounds(a, j);
      Scan(c, a, p, lo, hi, saveSeen, haConfig, d).verdict == (c.seen[Slot(a, j)] == 0 || ShowsChanges(d)))
    decreases hi - lo
  {
    SlotInBounds(a, j);
    ScanReadsOld(c, a, p, lo, hi, saveSeen, haConfig, d);
    if j < hi - 1 {
      ScanLastFreshDecides(c, a, p, lo, hi - 1, saveSeen, haConfig, d, j);
      assert !Fresh(c, a, p, hi - 1);
      SlotInBounds(a, hi - 1);
    }
  }

  /** Discovery is announced exactly when saveSeen and haConfig hold and some
      byte of the range was never seen. */
  lemma {:induction false} ScanAnnounces(c: CacheState, a: Address, p: seq<byte>, lo: nat, hi: nat, saveSeen: bool, haConfig: bool, d: Dial)
    requires WellFormed(c) && InTable(a) && lo <= hi <= Nr(a) && hi <= |p|
    ensures Scan(c, a, p, lo, hi, saveSeen, haConfig, d).announce <==>
      saveSeen && haConfig && exists i :: lo <= i < hi && (SlotInBounds(a, i); c.seen[Slot(a, i)] == 0)
    decreases hi - lo
  {
    if hi > lo {
      ScanAnnounces(c, a, p, lo, hi - 1, saveSeen, haConfig, d);
      ScanReadsOld(c, a, p, lo, hi, saveSeen, haConfig, d);
      SlotInBounds(a, hi - 1);
    }
  }

  /** When changes are shown, the verdict is true exactly when the filter is
      off or some byte of the range is fresh. */
  lemma ScanVerdictShowingChanges(c: CacheState, a: Address, p: seq<byte>, lo: nat, hi: nat, saveSeen: bool, haConfig: bool, d: Dial)
    requires WellFormed(c) && InTable(a) && lo <= hi <= Nr(a) && hi <= |p|
    requires ShowsChanges(d)
    ensures Scan(c, a, p, lo, hi, saveSeen, haConfig, d).verdict <==>
      d.outputFilter == 0 || exists i :: lo <= i < hi && Fresh(c, a, p, i)
  {
    if exists i :: lo <= i < hi && Fresh(c, a, p, i) {
      var j := LastFresh(c, a, p, lo, hi);
      ScanLastFreshDecides(c, a, p, lo, hi, saveSeen, haConfig, d, j);
    } else {
      ScanQuiet(c, a, p, lo, hi, saveSeen, haConfig, d);
    }
  }

  /** The index of the last fresh byte in [lo, hi). */
  function LastFresh(c: CacheState, a: Address, p: seq<byte>, lo: nat, hi: nat): (j: nat)
    requires WellFormed(c) && InTable(a) && lo <= hi <= Nr(a) && hi <= |p|
    requires exists i :: lo <= i < hi && Fresh(c, a, p, i)
    ensures lo <= j < hi && Fresh(c, a, p, j) && forall k :: j < k < hi ==> !Fresh(c, a, p, k)
    decreases hi - lo
  {
    if Fresh(c, a, p, hi - 1) then hi - 1 else LastFresh(c, a, p, lo, hi - 1)
  }

  // ---------------------------------------------------------------------
  // Byte-path properties of the whole observation

  /** The fallback branches write nothing: an unmapped type or an index past
      the region reports "new", an index shorter than the field reports false. */
  lemma ObserveBytesFallbacks(c: CacheState, src: byte, ptype: byte, index: nat, p: seq<byte>,
                              haConfig: bool, length: nat, saveSeen: bool, d: Dial)
    requires WellFormed(c) && index < |p|
    ensures var o := ObserveBytes(c, src, ptype, index, p, haConfig, length, saveSeen, d);
      && (ByteAddress(src, ptype).None? ==> o == Observation(c, Publishes(haConfig, d.outputMode), false))
      && (ByteAddress(src, ptype).Some? && !Admits(ByteAddress(src, ptype).value, index) ==>
            o == Observation(c, Publishes(haConfig, d.outputMode), false))
      && (ByteAddress(src, ptype).Some? && Admits(ByteAddress(src, ptype).value, index) && index + 1 < length ==>
            o == Observation(c, false, false))
  {
  }

  /** An observation only ever touches the slots of its own field. */
  lemma ObserveBytesFrame(c: CacheState, src: byte, ptype: byte, index: nat, p: seq<byte>,
                          haConfig: bool, length: nat, saveSeen: bool, d: Dial)
    requires WellFormed(c) && index < |p|
    requires ByteAddress(src, ptype).Some?
    ensures var a := ByteAddress(src, ptype).value;
      AgreeOutside(c, ObserveBytes(c, src, ptype, index, p, haConfig, length, saveSeen, d).cache,
                   Start(a) + index + 1 - length, Start(a) + index + 1)
  {
    var a := ByteAddress(src, ptype).value;
    if Admits(a, index) && index + 1 >= length {
      var lo := index + 1 - length;
      ObserveBytesScan(c, src, ptype, index, p, haConfig, length, saveSeen, d, a, lo);
      ScanFrame(c, a, p, lo, index + 1, saveSeen, haConfig, d);
    } else {
      assert ObserveBytes(c, src, ptype, index, p, haConfig, length, saveSeen, d).cache == c;
      AgreeOutsideSame(c, Start(a) + index + 1 - length, Start(a) + index + 1);
    }
  }

  /** Without saveSeen (the BITBASIS call) the cache is left as it was. */
  lemma ObserveWithoutSave(c: CacheState, src: byte, ptype: byte, index: nat, p: seq<byte>,
                           haConfig: bool, length: nat, d: Dial)
    requires WellFormed(c) && index < |p|
    ensures ObserveBytes(c, src, ptype, index, p, haConfig, length, false, d).cache == c
    ensures !ObserveBytes(c, src, ptype, index, p, haConfig, length, false, d).announce
  {
    match ByteAddress(src, ptype)
    case None =>
    case Some(a) =>
      if Admits(a, index) && index + 1 >= length {
        ScanWithoutSave(c, a, p, index + 1 - length, index + 1, haConfig, d);
      }
  }

  /** A one-byte field seen for the first time is reported (when publishing at
      all); with saveSeen it is stored and marked seen, and discovery is
      announced exactly when haConfig is set. */
  lemma FirstSighting(c: CacheState, src: byte, ptype: byte, index: nat, p: seq<byte>,
                      haConfig: bool, saveSeen: bool, d: Dial)
    requires WellFormed(c) && index < |p|
    requires ByteAddress(src, ptype).Some? && Admits(ByteAddress(src, ptype).value, index)
    requires c.seen[Slot(ByteAddress(src, ptype).value, index)] == 0
    ensures var o := ObserveBytes(c, src, ptype, index, p, haConfig, 1, saveSeen, d);
      var s := Slot(ByteAddress(src, ptype).value, index);
      && o.reported == Publishes(haConfig, d.outputMode)
      && o.announce == (haConfig && saveSeen)
      && (saveSeen ==> o.cache.seen[s] == 0xFF && o.cache.val[s] == p[index])
      && (!saveSeen ==> o.cache == c)
  {
    var a := ByteAddress(src, ptype).value;
    SlotInBounds(a, index);
    assert Fresh(c, a, p, index);
    ScanLastFreshDecides(c, a, p, index, index + 1, saveSeen, haConfig, d, index);
  }

  /** A one-byte field seen before: unchanged, the verdict is `outputFilter == 0`
      and nothing is written; changed, it is `outputFilter <= maxOutputFilter`
      and the byte is stored only with saveSeen. */
  lemma SeenByte(c: CacheState, src: byte, ptype: byte, index: nat, p: seq<byte>,
                 haConfig: bool, saveSeen: bool, d: Dial)
    requires WellFormed(c) && index < |p|
    requires ByteAddress(src, ptype).Some? && Admits(ByteAddress(src, ptype).value, index)
    requires c.seen[Slot(ByteAddress(src, ptype).value, index)] != 0
    ensures var o := ObserveBytes(c, src, ptype, index, p, haConfig, 1, saveSeen, d);
      var s := Slot(ByteAddress(src, ptype).value, index);
      && !o.announce
      && (c.val[s] == p[index] ==> o.cache == c && o.reported == (Publishes(haConfig, d.outputMode) && d.outputFilter == 0))
      && (c.val[s] != p[index] ==> o.reported == (Publishes(haConfig, d.outputMode) && ShowsChanges(d)))
      && (c.val[s] != p[index] && saveSeen ==> o.cache == c.(val := c.val[s := p[index]]))
      && (c.val[s] != p[index] && !saveSeen ==> o.cache == c)
  {
    var a := ByteAddress(src, ptype).value;
    SlotInBounds(a, index);
    if Fresh(c, a, p, index) {
      ScanLastFreshDecides(c, a, p, index, index + 1, saveSeen, haConfig, d, index);
    } else {
      ScanQuiet(c, a, p, index, index + 1, saveSeen, haConfig, d);
    }
  }

  /** Observing the same payload twice: the second observation writes nothing,
      announces nothing and reports only while the filter is off. */
  lemma ObserveBytesIdempotent(c: CacheState, src: byte, ptype: byte, index: nat, p: seq<byte>,
                               haConfig: bool, length: nat, d: Dial)
    requires WellFormed(c) && index < |p|
    ensures var o1 := ObserveBytes(c, src, ptype, index, p, haConfig, length, true, d);
      var o2 := ObserveBytes(o1.cache, src, ptype, index, p, haConfig, length, true, d);
      && o2.cache == o1.cache && !o2.announce
      && (ByteAddress(src, ptype).Some? && Admits(ByteAddress(src, ptype).value, index) && index + 1 >= length ==>
            o2.reported == (Publishes(haConfig, d.outputMode) && d.outputFilter == 0))
  {
    match ByteAddress(src, ptype)
    case None =>
    case Some(a) =>
      if Admits(a, index) && index + 1 >= length {
        ObserveBytesTwice(c, src, ptype, index, p, haConfig, length, d);
      } else {
        assert ObserveBytes(c, src, ptype, index, p, haConfig, length, true, d).cache == c;
      }
  }

  /** In its main case newPayloadBytesVal is the loop over the field's bytes. */
  lemma ObserveBytesScan(c: CacheState, src: byte, ptype: byte, index: nat, p: seq<byte>,
                         haConfig: bool, length: nat, saveSeen: bool, d: Dial, a: Address, lo: nat)
    requires WellFormed(c) && index < |p|
    requires ByteAddress(src, ptype) == Some(a) && Admits(a, index) && index + 1 >= length && lo == index + 1 - length
    ensures var r := Scan(c, a, p, lo, index + 1, saveSeen, haConfig, d);
      ObserveBytes(c, src, ptype, index, p, haConfig, length, saveSeen, d) == Observation(r.cache, Publishes(haConfig, d.outputMode) && r.verdict, r.announce)
  {
  }

  /** Observing a payload right after storing it finds nothing fresh. */
  lemma ObserveBytesTwice(c: CacheState, src: byte, ptype: byte, index: nat, p: seq<byte>, haConfig: bool, length: nat, d: Dial)
    requires WellFormed(c) && index < |p|
    requires ByteAddress(src, ptype).Some? && Admits(ByteAddress(src, ptype).value, index) && index + 1 >= length
    ensures var o1 := ObserveBytes(c, src, ptype, index, p, haConfig, length, true, d);
      ObserveBytes(o1.cache, src, ptype, index, p, haConfig, length, true, d) == Observation(o1.cache, Publishes(haConfig, d.outputMode) && d.outputFilter == 0, false)
  {
    var a := ByteAddress(src, ptype).value;
    var lo := index + 1 - length;
    ObserveBytesScan(c, src, ptype, index, p, haConfig, length, true, d, a, lo);
    var c1 := Scan(c, a, p, lo, index + 1, true, haConfig, d).cache;
    ScanTwice(c, a, p, lo, index + 1, haConfig, d);
    ObserveBytesScan(c1, src, ptype, index, p, haConfig, length, true, d, a, lo);
  }

  /** A second scan of the bytes just stored finds nothing fresh. */
  lemma ScanTwice(c: CacheState, a: Address, p: seq<byte>, lo: nat, hi: nat, haConfig: bool, d: Dial)
    requires WellFormed(c) && InTable(a) && lo <= hi <= Nr(a) && hi <= |p|
    ensures var c1 := Scan(c, a, p, lo, hi, true, haConfig, d).cache;
      Scan(c1, a, p, lo, hi, true, haConfig, d) == StepState(c1, d.outputFilter == 0, false)
  {
    var c1 := Scan(c, a, p, lo, hi, true, haConfig, d).cache;
    ScanStores(c, a, p, lo, hi, haConfig, d);
    forall i | lo <= i < hi
      ensures !Fresh(c1, a, p, i)
    {
      SlotInBounds(a, i);
    }
    ScanQuiet(c1, a, p, lo, hi, true, haConfig, d);
  }

  /** The code follows the loop literally: newByte is assigned, not
      accumulated, so a first-seen byte followed by a changed byte is not
      reported when changes are hidden. */
  lemma LastByteWins()
    ensures var c := EmptyCache().(val := EmptyCache().val[141 := 0x07]).(seen := EmptyCache().seen[141 := 0xFF]);
      var o := ObserveBytes(c, 0x89, 0x2D, 1, [0x01, 0x02], true, 2, true, Dial(1, 0, 0));
      !o.reported && o.announce
  {
    var c := EmptyCache().(val := EmptyCache().val[141 := 0x07]).(seen := EmptyCache().seen[141 := 0xFF]);
    var a := Address(0, 12);
    assert ByteAddress(0x89, 0x2D) == Some(a);
    assert Slot(a, 0) == 140 && Slot(a, 1) == 141;
    ScanLastFreshDecides(c, a, [0x01, 0x02], 0, 2, true, true, Dial(1, 0, 0), 1);
    ScanAnnounces(c, a, [0x01, 0x02], 0, 2, true, true, Dial(1, 0, 0));
    assert c.seen[Slot(a, 0)] == 0;
  }

  // ---------------------------------------------------------------------
  // The bit path

  /** The bit-path step once the slot is known (lines of the final else-branch). */
  function BitStep(c: CacheState, s: nat, b: byte, bitNr: byte, haConfig: bool, d: Dial): (r: StepState)
    requires WellFormed(c) && s < SizeValSeen && bitNr < 8
    ensures WellFormed(r.cache)
  {
    var m := BitMask(bitNr);
    if c.seen[s] & m != 0 then
      if (c.val[s] ^ b) & m != 0 then StepState(c.(val := c.val[s := CopyBit(c.val[s], b, bitNr)]), ShowsChanges(d), false)
      else StepState(c, d.outputFilter == 0, false)
    else StepState(CacheState(c.val[s := CopyBit(c.val[s], b, bitNr)], c.seen[s := c.seen[s] | m]), true, haConfig)
  }

  /** `v &= 0xFF ^ mask; v |= b & mask`: bit k of b copied into v. */
  function CopyBit(v: byte, b: byte, k: byte): byte
    requires k < 8
  {
    (v & (0xFF ^ BitMask(k))) | (b & BitMask(k))
  }

  lemma CopyBitBits(v: byte, b: byte, k: byte, j: byte)
    requires k < 8 && j < 8
    ensures Bit(CopyBit(v, b, k), j) == if j == k then Bit(b, k) else Bit(v, j)
  {
    if j == k {
      assert CopyBit(v, b, k) & BitMask(k) == b & BitMask(k);
    } else {
      assert BitMask(k) & BitMask(j) == 0;
      assert CopyBit(v, b, k) & BitMask(j) == v & BitMask(j);
    }
  }

  lemma SetBitBits(v: byte, k: byte, j: byte)
    requires k < 8 && j < 8
    ensures Bit(v | BitMask(k), j) == (j == k || Bit(v, j))
  {
    if j != k {
      assert BitMask(k) & BitMask(j) == 0;
    }
  }

  /** The changed-bit test `(v ^ b) & mask` compares bit k of the two bytes. */
  lemma XorBit(v: byte, b: byte, k: byte)
    requires k < 8
    ensures ((v ^ b) & BitMask(k) != 0) == (Bit(v, k) != Bit(b, k))
  {
  }

  /** newPayloadBitVal(src, type, index, payload, haConfig, bitNr). A source
      whose `src >> 6` names a row the tables do not have is rejected. */
  function ObserveBit(c: CacheState, src: byte, ptype: byte, index: nat, p: seq<byte>,
                      haConfig: bool, bitNr: byte, d: Dial): (o: Observation)
    requires WellFormed(c) && index < |p|
    ensures WellFormed(o.cache)
  {
    var pub := Publishes(haConfig, d.outputMode);
    if bitNr > 7 then Observation(c, pub, false)
    else match BitColumn(ptype)
      case None => Observation(c, pub, false)
      case Some(col) =>
        if BitRow(src) >= Rows then Observation(c, false, false)
        else
          var a := Address(BitRow(src), col);
          if !Admits(a, index) then Observation(c, pub, false)
          else
            SlotInBounds(a, index);
            var r := BitStep(c, Slot(a, index), p[index], bitNr, haConfig, d);
            Observation(r.cache, pub && r.verdict && ShowsChanges(d), r.announce)
  }

  /** The address the bit path caches at, when it caches at all. */
  predicate BitCached(src: byte, ptype: byte, index: nat, bitNr: byte)
  {
    && bitNr <= 7 && BitColumn(ptype).Some? && BitRow(src) < Rows
    && Admits(Address(BitRow(src), BitColumn(ptype).value), index)
  }

  function BitSlot(src: byte, ptype: byte, index: nat, bitNr: byte): (s: nat)
    requires BitCached(src, ptype, index, bitNr)
    ensures s < SizeValSeen
  {
    var a := Address(BitRow(src), BitColumn(ptype).value);
    SlotInBounds(a, index);
    Slot(a, index)
  }

  /** Out-of-range bit numbers and types outside 0x08..0x0F other than 0x31
      report "new" and write nothing. */
  lemma ObserveBitFallbacks(c: CacheState, src: byte, ptype: byte, index: nat, p: seq<byte>,
                            haConfig: bool, bitNr: byte, d: Dial)
    requires WellFormed(c) && index < |p|
    requires bitNr > 7 || ((ptype < 0x08 || ptype > 0x0F) && ptype != 0x31)
    ensures ObserveBit(c, src, ptype, index, p, haConfig, bitNr, d) == Observation(c, Publishes(haConfig, d.outputMode), false)
  {
  }

  /** The bit step writes no slot but its own. */
  lemma BitStepFrame(c: CacheState, s: nat, b: byte, bitNr: byte, haConfig: bool, d: Dial)
    requires WellFormed(c) && s < SizeValSeen && bitNr < 8
    ensures var o := BitStep(c, s, b, bitNr, haConfig, d).cache;
      forall t :: 0 <= t < SizeValSeen && t != s ==> o.val[t] == c.val[t] && o.seen[t] == c.seen[t]
  {
  }

  /** Bit k of the stored value and of the seen mask after one bit step, whichever
      branch it takes: the payload's bit is copied in and marked seen. */
  lemma SlotUpdate(seen: byte, v: byte, b: byte, k: byte)
    requires k < 8
    ensures (if seen & BitMask(k) != 0 then seen else seen | BitMask(k)) == seen | BitMask(k)
    ensures (if seen & BitMask(k) != 0 && (v ^ b) & BitMask(k) == 0 then v else CopyBit(v, b, k)) == CopyBit(v, b, k)
  {
  }

  /** The bit step writes slot s with the two bytes SlotUpdate describes. */
  lemma BitStepShape(c: CacheState, s: nat, b: byte, bitNr: byte, haConfig: bool, d: Dial)
    requires WellFormed(c) && s < SizeValSeen && bitNr < 8
    ensures var o := BitStep(c, s, b, bitNr, haConfig, d).cache;
      var sn, v := c.seen[s], c.val[s];
      && o.val[s] == (if sn & BitMask(bitNr) != 0 && (v ^ b) & BitMask(bitNr) == 0 then v else CopyBit(v, b, bitNr))
      && o.seen[s] == (if sn & BitMask(bitNr) != 0 then sn else sn | BitMask(bitNr))
  {
  }

  /** Whichever of its three branches the bit step takes, the slot ends up
      with bit bitNr copied from the payload and marked seen. */
  lemma BitStepSlot(c: CacheState, s: nat, b: byte, bitNr: byte, haConfig: bool, d: Dial)
    requires WellFormed(c) && s < SizeValSeen && bitNr < 8
    ensures var o := BitStep(c, s, b, bitNr, haConfig, d).cache;
      o.val[s] == CopyBit(c.val[s], b, bitNr) && o.seen[s] == c.seen[s] | BitMask(bitNr)
  {
    BitStepShape(c, s, b, bitNr, haConfig, d);
    SlotUpdate(c.seen[s], c.val[s], b, bitNr);
  }

  /** Bit j of the slot after the bit step: bit bitNr is seen and holds the
      payload's bit, the other seven bits of value and seen mask are kept. */
  lemma BitStepBit(c: CacheState, s: nat, b: byte, bitNr: byte, haConfig: bool, d: Dial, j: byte)
    requires WellFormed(c) && s < SizeValSeen && bitNr < 8 && j < 8
    ensures var o := BitStep(c, s, b, bitNr, haConfig, d).cache;
      && (j == bitNr ==> Bit(o.seen[s], j) && Bit(o.val[s], j) == Bit(b, j))
      && (j != bitNr ==> Bit(o.val[s], j) == Bit(c.val[s], j) && Bit(o.seen[s], j) == Bit(c.seen[s], j))
  {
    BitStepSlot(c, s, b, bitNr, haConfig, d);
    CopyBitBits(c.val[s], b, bitNr, j);
    SetBitBits(c.seen[s], bitNr, j);
  }

  /** The same, for a whole cached bit observation. */
  lemma ObserveBitTouchesOneBit(c: CacheState, src: byte, ptype: byte, index: nat, p: seq<byte>,
                                haConfig: bool, bitNr: byte, d: Dial)
    requires WellFormed(c) && index < |p| && BitCached(src, ptype, index, bitNr)
    ensures var o := ObserveBit(c, src, ptype, index, p, haConfig, bitNr, d).cache;
      var s := BitSlot(src, ptype, index, bitNr);
      && (forall t :: 0 <= t < SizeValSeen && t != s ==> o.val[t] == c.val[t] && o.seen[t] == c.seen[t])
      && Bit(o.seen[s], bitNr) && Bit(o.val[s], bitNr) == Bit(p[index], bitNr)
      && (forall j: byte :: j < 8 && j != bitNr ==> Bit(o.val[s], j) == Bit(c.val[s], j) && Bit(o.seen[s], j) == Bit(c.seen[s], j))
  {
    var s := BitSlot(src, ptype, index, bitNr);
    BitStepFrame(c, s, p[index], bitNr, haConfig, d);
    forall j: byte | j < 8
      ensures var o := BitStep(c, s, p[index], bitNr, haConfig, d).cache;
        && (j == bitNr ==> Bit(o.seen[s], j) && Bit(o.val[s], j) == Bit(p[index], j))
        && (j != bitNr ==> Bit(o.val[s], j) == Bit(c.val[s], j) && Bit(o.seen[s], j) == Bit(c.seen[s], j))
    {
      BitStepBit(c, s, p[index], bitNr, haConfig, d, j);
    }
  }

  /** A cached bit is never reported while changes are hidden, not even the
      first time it is seen. */
  lemma ObserveBitFilterForces(c: CacheState, src: byte, ptype: byte, index: nat, p: seq<byte>,
                               haConfig: bool, bitNr: byte, d: Dial)
    requires WellFormed(c) && index < |p| && BitCached(src, ptype, index, bitNr)
    requires !ShowsChanges(d)
    ensures !ObserveBit(c, src, ptype, index, p, haConfig, bitNr, d).reported
  {
  }

  /** A cached bit seen for the first time announces discovery exactly when
      haConfig holds, and is reported when publishing and showing changes. */
  lemma ObserveBitFirstSighting(c: CacheState, src: byte, ptype: byte, index: nat, p: seq<byte>,
                                haConfig: bool, bitNr: byte, d: Dial)
    requires WellFormed(c) && index < |p| && BitCached(src, ptype, index, bitNr)
    requires !Bit(c.seen[BitSlot(src, ptype, index, bitNr)], bitNr)
    ensures var o := ObserveBit(c, src, ptype, index, p, haConfig, bitNr, d);
      o.announce == haConfig && o.reported == (Publishes(haConfig, d.outputMode) && ShowsChanges(d))
  {
  }

  /** Observing the same bit twice: the second time nothing is written and
      the bit is reported only while the filter is off. */
  lemma ObserveBitIdempotent(c: CacheState, src: byte, ptype: byte, index: nat, p: seq<byte>,
                             haConfig: bool, bitNr: byte, d: Dial)
    requires WellFormed(c) && index < |p| && BitCached(src, ptype, index, bitNr)
    ensures var o1 := ObserveBit(c, src, ptype, index, p, haConfig, bitNr, d);
      var o2 := ObserveBit(o1.cache, src, ptype, index, p, haConfig, bitNr, d);
      && o2.cache == o1.cache && !o2.announce
      && o2.reported == (Publishes(haConfig, d.outputMode) && d.outputFilter == 0 && ShowsChanges(d))
  {
    var s := BitSlot(src, ptype, index, bitNr);
    var c1 := ObserveBit(c, src, ptype, index, p, haConfig, bitNr, d).cache;
    ObserveBitTouchesOneBit(c, src, ptype, index, p, haConfig, bitNr, d);
    XorBit(c1.val[s], p[index], bitNr);
  }

  /** The H-link packet types (the packet lengths 0x12, 0x18, 0x27, 0x2D) all
      lie above 0x0F, so the bit path never caches them: their bits are
      reported on every packet, whatever the filter and the cache. */
  lemma HLinkBitsNeverCached(c: CacheState, src: byte, ptype: byte, index: nat, p: seq<byte>,
                             haConfig: bool, bitNr: byte, d: Dial)
    requires WellFormed(c) && index < |p|
    requires ptype in {0x12, 0x18, 0x27, 0x2D}
    ensures ObserveBit(c, src, ptype, index, p, haConfig, bitNr, d) == Observation(c, Publishes(haConfig, d.outputMode), false)
  {
  }

  /** Replaying bits 0 .. k-1 of payload[index], as bits2keyvalue is called for a BITBASIS byte. */
  function ObserveBits(c: CacheState, src: byte, ptype: byte, index: nat, p: seq<byte>, haConfig: bool, k: byte, d: Dial): (r: CacheState)
    requires WellFormed(c) && index < |p| && k <= 8
    ensures WellFormed(r)
  {
    if k == 0 then c
    else ObserveBit(ObserveBits(c, src, ptype, index, p, haConfig, k - 1, d), src, ptype, index, p, haConfig, k - 1, d).cache
  }

  /** A cached bit observation is the bit step on its slot; the slot does
      not depend on the bit number. */
  lemma ObserveBitIsStep(c: CacheState, src: byte, ptype: byte, index: nat, p: seq<byte>,
                         haConfig: bool, bitNr: byte, d: Dial)
    requires WellFormed(c) && index < |p| && BitCached(src, ptype, index, bitNr)
    ensures BitCached(src, ptype, index, 0) && BitSlot(src, ptype, index, bitNr) == BitSlot(src, ptype, index, 0)
    ensures ObserveBit(c, src, ptype, index, p, haConfig, bitNr, d).cache
         == BitStep(c, BitSlot(src, ptype, index, bitNr), p[index], bitNr, haConfig, d).cache
  {
  }

  /** Replaying bits writes no slot but the byte's own. */
  lemma {:induction false} ObserveBitsFrame(c: CacheState, src: byte, ptype: byte, index: nat, p: seq<byte>, haConfig: bool, k: byte, d: Dial)
    requires WellFormed(c) && index < |p| && k <= 8 && BitCached(src, ptype, index, 0)
    ensures var r := ObserveBits(c, src, ptype, index, p, haConfig, k, d);
      var s := BitSlot(src, ptype, index, 0);
      forall t :: 0 <= t < SizeValSeen && t != s ==> r.val[t] == c.val[t] && r.seen[t] == c.seen[t]
  {
    if k > 0 {
      ObserveBitsFrame(c, src, ptype, index, p, haConfig, k - 1, d);
      var mid := ObserveBits(c, src, ptype, index, p, haConfig, k - 1, d);
      var s := BitSlot(src, ptype, index, 0);
      ObserveBitIsStep(mid, src, ptype, index, p, haConfig, k - 1, d);
      BitStepFrame(mid, s, p[index], k - 1, haConfig, d);
    }
  }

  /** The mask of bits 0 .. k-1. */
  function LowMask(k: byte): byte
    requires k <= 8
  {
    if k == 8 then 0xFF else (1 << k) - 1
  }

  /** Bits 0 .. k-1 of b copied into v. */
  function CopyLow(v: byte, b: byte, k: byte): byte
    requires k <= 8
  {
    (v & (0xFF ^ LowMask(k))) | (b & LowMask(k))
  }

  /** Copying and marking bit k-1 after bits 0 .. k-2 gives bits 0 .. k-1. */
  lemma LowMaskStep(v: byte, seen: byte, b: byte, k: byte)
    requires 1 <= k <= 8
    ensures CopyBit(CopyLow(v, b, k - 1), b, k - 1) == CopyLow(v, b, k)
    ensures (seen | LowMask(k - 1)) | BitMask(k - 1) == seen | LowMask(k)
  {
  }

  /** No bits and all eight bits are the two ends. */
  lemma LowMaskEnds(v: byte, seen: byte, b: byte)
    ensures CopyLow(v, b, 0) == v && CopyLow(v, b, 8) == b
    ensures seen | LowMask(0) == seen && LowMask(8) == 0xFF
  {
  }

  /** After bits 0 .. k-1 of payload[index] have been observed, the slot
      holds those bits of the payload byte above the old value's other bits,
      and those bits are marked seen. */
  lemma {:induction false} ObserveBitsSlot(c: CacheState, src: byte, ptype: byte, index: nat, p: seq<byte>, haConfig: bool, k: byte, d: Dial)
    requires WellFormed(c) && index < |p| && k <= 8 && BitCached(src, ptype, index, 0)
    ensures var r := ObserveBits(c, src, ptype, index, p, haConfig, k, d);
      var s := BitSlot(src, ptype, index, 0);
      r.val[s] == CopyLow(c.val[s], p[index], k) && r.seen[s] == c.seen[s] | LowMask(k)
  {
    var s := BitSlot(src, ptype, index, 0);
    if k == 0 {
      LowMaskEnds(c.val[s], c.seen[s], p[index]);
    } else {
      LowMaskStep(c.val[s], c.seen[s], p[index], k);
      ObserveBitsSlot(c, src, ptype, index, p, haConfig, k - 1, d);
      var mid := ObserveBits(c, src, ptype, index, p, haConfig, k - 1, d);
      ObserveBitIsStep(mid, src, ptype, index, p, haConfig, k - 1, d);
      BitStepSlot(mid, s, p[index], k - 1, haConfig, d);
    }
  }

  /** Replaying all eight bits of a cached bit byte leaves the slot holding the
      payload byte, fully seen, and every other slot as it was. */
  lemma ObserveAllBits(c: CacheState, src: byte, ptype: byte, index: nat, p: seq<byte>, haConfig: bool, d: Dial)
    requires WellFormed(c) && index < |p| && BitCached(src, ptype, index, 0)
    ensures var r := ObserveBits(c, src, ptype, index, p, haConfig, 8, d);
      var s := BitSlot(src, ptype, index, 0);
      && r.val[s] == p[index] && r.seen[s] == 0xFF
      && forall t :: 0 <= t < SizeValSeen && t != s ==> r.val[t] == c.val[t] && r.seen[t] == c.seen[t]
  {
    ObserveBitsSlot(c, src, ptype, index, p, haConfig, 8, d);
    ObserveBitsFrame(c, src, ptype, index, p, haConfig, 8, d);
    var s := BitSlot(src, ptype, index, 0);
    LowMaskEnds(c.val[s], c.seen[s], p[index]);
  }
}
