/**
  The Wiegand frame decoder of lib/wiegand.py.

  A reader pulses one wire for every 0 bit and the other for every 1 bit. The edge
  handler `OnPin` shifts each accepted bit into the unbounded integer `nextCard`; the
  periodic `CardCheck` closes the frame once more than 50 ms have passed since the last
  accepted edge, snapshots it into `lastCard`, selects the mask/offset quadruple for its
  bit length and hands the decoded fields to the callback. Both handlers are atomic
  methods here, to be called in any interleaving; the clock reading `now` (milliseconds)
  is a parameter of each.
*/
module Wiegand {
  import opened Wrappers
  import opened Bits

  // 26-bit HID H10301: parity, 8 facility bits, 16 card bits, parity
  const CARD_MASK_WG26: nat := 0x1FFFE
  const CARD_MASK_OFFSET_WG26: nat := 1
  const FACILITY_MASK_WG26: nat := 0x1FE0000
  const FACILITY_MASK_OFFSET_WG26: nat := 17

  // 32-bit Wiegand: 16 card bits at the bottom, 12 facility bits above them
  const CARD_MASK_WG32: nat := 0xFFFF
  const CARD_MASK_OFFSET_WG32: nat := 0
  const FACILITY_MASK_WG32: nat := 0xFFF0000
  const FACILITY_MASK_OFFSET_WG32: nat := 16

  // 34-bit frames: the same field positions as the 26-bit row
  const CARD_MASK_HID34: nat := 0x1FFFE
  const CARD_MASK_OFFSET_HID34: nat := 1
  const FACILITY_MASK_HID34: nat := 0x1FE0000
  const FACILITY_MASK_OFFSET_HID34: nat := 17

  // 35-bit HID Corporate 1000: 20 card bits above the trailing parity bit, 12 facility bits above them
  const CARD_MASK_HID35: nat := 0x1FFFFE
  const CARD_MASK_OFFSET_HID35: nat := 1
  const FACILITY_MASK_HID35: nat := 0x1FFE00000
  const FACILITY_MASK_OFFSET_HID35: nat := 21

  /** Edges closer than this to the last accepted one are contact bounce. */
  const DEBOUNCE_MS: int := 2

  /** A frame is complete once the line has been idle for longer than this. */
  const INACTIVITY_MS: int := 50

  /** The mask/offset quadruple selected for one frame length. */
  datatype Format = Format(cardMask: nat, cardMaskOffset: nat, facilityMask: nat, facilityMaskOffset: nat)

  /**
    Where the two fields sit in a frame of a known length: bit positions counted from the
    least significant (last received) bit, each field `width` bits wide from `low` up.
  */
  datatype Layout = Layout(cardLow: nat, cardWidth: nat, facilityLow: nat, facilityWidth: nat)

  /** The documented field positions of each supported frame length. */
  function LayoutFor(bitLength: nat): (l: Option<Layout>)
    ensures l.Some? <==> bitLength == 26 || bitLength == 32 || bitLength == 34 || bitLength == 35
    ensures l.Some? ==> l.value.cardWidth >= 16 && l.value.facilityWidth >= 8
    ensures l.Some? ==> l.value.cardLow + l.value.cardWidth <= l.value.facilityLow
    ensures l.Some? ==> l.value.facilityLow + l.value.facilityWidth <= bitLength
  {
    if bitLength == 26 then Some(Layout(1, 16, 17, 8))
    else if bitLength == 32 then Some(Layout(0, 16, 16, 12))
    else if bitLength == 34 then Some(Layout(1, 16, 17, 8))
    else if bitLength == 35 then Some(Layout(1, 20, 21, 12))
    else None
  }

  /**
    The format table of `_cardcheck`: the mask/offset constants for 26, 32, 34 and 35
    bits, and nothing for any other length. Each mask is exactly the run of ones over
    its field in `LayoutFor`, and each offset is the field's lowest bit.
  */
  function FormatFor(bitLength: nat): (f: Option<Format>)
    ensures f.Some? <==> LayoutFor(bitLength).Some?
    ensures f.Some? ==>
      var l := LayoutFor(bitLength).value;
      && f.value.cardMask == Mask(l.cardLow, l.cardWidth)
      && f.value.cardMaskOffset == l.cardLow
      && f.value.facilityMask == Mask(l.facilityLow, l.facilityWidth)
      && f.value.facilityMaskOffset == l.facilityLow
  {
    TableMasks();
    if bitLength == 26 then
      Some(Format(CARD_MASK_WG26, CARD_MASK_OFFSET_WG26, FACILITY_MASK_WG26, FACILITY_MASK_OFFSET_WG26))
    else if bitLength == 32 then
      Some(Format(CARD_MASK_WG32, CARD_MASK_OFFSET_WG32, FACILITY_MASK_WG32, FACILITY_MASK_OFFSET_WG32))
    else if bitLength == 34 then
      Some(Format(CARD_MASK_HID34, CARD_MASK_OFFSET_HID34, FACILITY_MASK_HID34, FACILITY_MASK_OFFSET_HID34))
    else if bitLength == 35 then
      Some(Format(CARD_MASK_HID35, CARD_MASK_OFFSET_HID35, FACILITY_MASK_HID35, FACILITY_MASK_OFFSET_HID35))
    else None
  }

  /** The table's literal masks are the runs of ones that `LayoutFor` describes. */
  lemma TableMasks()
    ensures CARD_MASK_WG26 == CARD_MASK_HID34 == Mask(1, 16)
    ensures FACILITY_MASK_WG26 == FACILITY_MASK_HID34 == Mask(17, 8)
    ensures CARD_MASK_WG32 == Mask(0, 16) && FACILITY_MASK_WG32 == Mask(16, 12)
    ensures CARD_MASK_HID35 == Mask(1, 20) && FACILITY_MASK_HID35 == Mask(21, 12)
  {
    assert Mask(9, 8) == 0xFF * 0x200;
    assert Mask(8, 12) == 0xFFF * 0x100;
    assert Mask(10, 12) == 0xFFF * 0x400;
  }

  /** Whether an edge at `now` passes the debounce test of `_on_pin`. */
  predicate Accepts(lastBitRead: Option<nat>, now: nat)
  {
    !(lastBitRead.Some? && now - lastBitRead.value < DEBOUNCE_MS)
  }

  /** Whether a timer tick at `now` closes the frame in progress. */
  predicate Finalises(lastBitRead: Option<nat>, now: nat)
  {
    lastBitRead.Some? && now - lastBitRead.value > INACTIVITY_MS
  }

  /** What one timer tick does: nothing, call the callback, or raise before calling it. */
  datatype Tick =
    | Idle
    | Callback(card: Option<nat>, facility: Option<nat>, cardsRead: nat, bitLength: nat)
    | Raised(error: Exception)

  class Wiegand {
    const pin0: int  // the GPIO that pulses when the reader sends a 0
    const pin1: int  // the GPIO that pulses when the reader sends a 1

    var lastCard: Option<nat>
    var nextCard: nat
    var bits: nat
    var lastBitRead: Option<nat>
    var cardsRead: nat
    var cardMask: Option<nat>
    var cardMaskOffset: Option<nat>
    var facilityMask: Option<nat>
    var facilityMaskOffset: Option<nat>

    /** The bits of the frame in progress, in arrival order. */
    ghost var frame: seq<bool>
    /** The bits of the last completed frame, in arrival order. */
    ghost var lastFrame: seq<bool>

    /** The four selected mask/offset fields hold the table entry `f`. */
    ghost predicate Selects(f: Option<Format>)
      reads this
    {
      match f
      case None => cardMask.None? && facilityMask.None?
      case Some(fmt) =>
        && cardMask == Some(fmt.cardMask) && cardMaskOffset == Some(fmt.cardMaskOffset)
        && facilityMask == Some(fmt.facilityMask) && facilityMaskOffset == Some(fmt.facilityMaskOffset)
    }

    ghost predicate Valid()
      reads this
    {
      // the accumulator is the received bits, one left shift per bit
      && bits == |frame|
      && nextCard == BigEndian(frame)
      // a frame is in progress exactly when a bit has been accepted since the last reset
      && (lastBitRead.None? <==> frame == [])
      // one completed frame per finalisation
      && (lastCard.None? <==> cardsRead == 0)
      && (lastCard.None? ==>
            lastFrame == [] && cardMask.None? && cardMaskOffset.None?
            && facilityMask.None? && facilityMaskOffset.None?)
      && (lastCard.Some? ==>
            lastFrame != [] && lastCard.value == BigEndian(lastFrame) && Selects(FormatFor(|lastFrame|)))
      && (cardMask.Some? ==> cardMaskOffset.Some?)
      && (facilityMask.Some? ==> facilityMaskOffset.Some?)
    }

    constructor (pin0: int, pin1: int)
      ensures Valid()
      ensures this.pin0 == pin0 && this.pin1 == pin1
      ensures lastCard.None? && nextCard == 0 && bits == 0 && lastBitRead.None? && cardsRead == 0
      ensures cardMask.None? && cardMaskOffset.None? && facilityMask.None? && facilityMaskOffset.None?
      ensures frame == [] && lastFrame == []
    {
      this.pin0 := pin0;
      this.pin1 := pin1;
      lastCard := None;
      nextCard := 0;
      bits := 0;
      lastBitRead := None;
      cardsRead := 0;
      cardMask, cardMaskOffset := None, None;
      facilityMask, facilityMaskOffset := None, None;
      frame, lastFrame := [], [];
    }

    /**
      An accepted edge at `now`: the last-bit time is `now`, the bit is shifted into the
      accumulator and appended to the frame, one more bit is counted, and nothing else
      changes.
    */
    twostate predicate TookBit(isOne: bool, now: nat)
      reads this
    {
      && lastBitRead == Some(now)
      && nextCard == 2 * old(nextCard) + (if isOne then 1 else 0)
      && bits == old(bits) + 1
      && frame == old(frame) + [isOne]
      && lastCard == old(lastCard) && cardsRead == old(cardsRead) && lastFrame == old(lastFrame)
      && cardMask == old(cardMask) && cardMaskOffset == old(cardMaskOffset)
      && facilityMask == old(facilityMask) && facilityMaskOffset == old(facilityMaskOffset)
    }

    /** `_on_pin0`: the interrupt handler of `pin0`, whose edges carry a 0 bit. */
    method OnPin0(now: nat)
      requires Valid()
      modifies this
      ensures Valid()
      ensures !Accepts(old(lastBitRead), now) ==> unchanged(this)
      ensures Accepts(old(lastBitRead), now) ==> TookBit(false, now)
    {
      OnPin(false, now);
    }

    /** `_on_pin1`: the interrupt handler of `pin1`, whose edges carry a 1 bit. */
    method OnPin1(now: nat)
      requires Valid()
      modifies this
      ensures Valid()
      ensures !Accepts(old(lastBitRead), now) ==> unchanged(this)
      ensures Accepts(old(lastBitRead), now) ==> TookBit(true, now)
    {
      OnPin(true, now);
    }

    /**
      The falling-edge handler: an edge within 2 ms of the last accepted one changes
      nothing; any other edge appends its bit to the frame in progress.
    */
    method OnPin(isOne: bool, now: nat)
      requires Valid()
      modifies this
      ensures Valid()
      ensures !Accepts(old(lastBitRead), now) ==> unchanged(this)
      ensures Accepts(old(lastBitRead), now) ==> TookBit(isOne, now)
    {
      if lastBitRead.Some? && now - lastBitRead.value < DEBOUNCE_MS {
        return;
      }
      lastBitRead := Some(now);
      nextCard := nextCard * 2;
      if isOne {
        OrOne(nextCard / 2);
        nextCard := Or(nextCard, 1);
      }
      bits := bits + 1;
      assert (frame + [isOne])[..|frame|] == frame;
      frame := frame + [isOne];
    }

    /**
      `get_card`: None before any frame has completed, otherwise `(last_card & CARD_MASK)
      >> CARD_MASK_OFFSET`, which raises TypeError while the mask is None.
    */
    function GetCard(): (r: Result<Option<nat>, Exception>)
      reads this
      ensures lastCard.None? <==> r == Ok(None)
      ensures r.Err? <==> lastCard.Some? && (cardMask.None? || cardMaskOffset.None?)
      ensures r.Err? ==> r.error == TypeError
      ensures r.Ok? && r.value.Some? ==> r.value.value <= lastCard.value
    {
      if lastCard.None? then Ok(None)
      else if cardMask.None? || cardMaskOffset.None? then Err(TypeError)
      else
        AndAtMostLeft(lastCard.value, cardMask.value);
        ShrAtMost(And(lastCard.value, cardMask.value), cardMaskOffset.value);
        Ok(Some(Shr(And(lastCard.value, cardMask.value), cardMaskOffset.value)))
    }

    /** `get_facility_code`: as `GetCard`, with the facility mask and offset. */
    function GetFacilityCode(): (r: Result<Option<nat>, Exception>)
      reads this
      ensures lastCard.None? <==> r == Ok(None)
      ensures r.Err? <==> lastCard.Some? && (facilityMask.None? || facilityMaskOffset.None?)
      ensures r.Err? ==> r.error == TypeError
      ensures r.Ok? && r.value.Some? ==> r.value.value <= lastCard.value
    {
      if lastCard.None? then Ok(None)
      else if facilityMask.None? || facilityMaskOffset.None? then Err(TypeError)
      else
        AndAtMostLeft(lastCard.value, facilityMask.value);
        ShrAtMost(And(lastCard.value, facilityMask.value), facilityMaskOffset.value);
        Ok(Some(Shr(And(lastCard.value, facilityMask.value), facilityMaskOffset.value)))
    }

    /**
      The timer tick `_cardcheck`. Without a frame in progress, or within 50 ms of the
      last accepted edge, it does nothing. Otherwise it closes the frame (`Finalise`),
      selects the format of its length (`SelectFormat`) and calls the callback with the
      decoded fields (`Deliver`); for a length outside the table the masks are None and
      reading the card number raises TypeError after the state has changed.
    */
    method CardCheck(now: nat) returns (t: Tick)
      requires Valid()
      modifies this
      ensures Valid()
      ensures !Finalises(old(lastBitRead), now) ==> unchanged(this) && t == Idle
      ensures Finalises(old(lastBitRead), now) ==>
        && lastBitRead.None? && nextCard == 0 && bits == 0 && frame == []
        && lastCard == Some(old(nextCard)) && lastFrame == old(frame)
        && cardsRead == old(cardsRead) + 1
        && Selects(FormatFor(old(bits)))
        && (FormatFor(old(bits)).None? ==>
              cardMaskOffset == old(cardMaskOffset) && facilityMaskOffset == old(facilityMaskOffset))
        && t == Delivered(old(nextCard), cardsRead, old(bits))
    {
      if lastBitRead.None? {
        return Idle;
      }
      if now - lastBitRead.value > INACTIVITY_MS {
        var tmpBits := Finalise();
        SelectFormat(tmpBits);
        t := Deliver(tmpBits);
        return;
      }
      return Idle;
    }

    /**
      The snapshot-and-reset of `_cardcheck`: the accumulator becomes the last card, the
      buffer empties, the next debounce test is disarmed and one more frame is counted.
    */
    method Finalise() returns (tmpBits: nat)
      requires Valid() && lastBitRead.Some?
      modifies this`lastBitRead, this`lastCard, this`nextCard, this`bits, this`cardsRead
      modifies this`frame, this`lastFrame
      ensures tmpBits == old(bits) == |lastFrame| > 0
      ensures lastBitRead.None? && nextCard == 0 && bits == 0 && frame == []
      ensures lastCard == Some(old(nextCard)) && lastFrame == old(frame)
      ensures cardsRead == old(cardsRead) + 1
    {
      lastBitRead := None;
      lastCard := Some(nextCard);
      lastFrame := frame;
      nextCard := 0;
      tmpBits := bits;
      bits := 0;
      frame := [];
      cardsRead := cardsRead + 1;
    }

    /**
      The format selection of `_cardcheck`: both masks are cleared, then all four fields
      are loaded from the table when the length is in it. The offsets are not cleared.
    */
    method SelectFormat(bitLength: nat)
      modifies this`cardMask, this`cardMaskOffset, this`facilityMask, this`facilityMaskOffset
      ensures Selects(FormatFor(bitLength))
      ensures FormatFor(bitLength).None? ==>
        cardMaskOffset == old(cardMaskOffset) && facilityMaskOffset == old(facilityMaskOffset)
    {
      cardMask := None;
      facilityMask := None;
      match FormatFor(bitLength) {
        case Some(f) =>
          cardMask, cardMaskOffset := Some(f.cardMask), Some(f.cardMaskOffset);
          facilityMask, facilityMaskOffset := Some(f.facilityMask), Some(f.facilityMaskOffset);
        case None =>
      }
    }

    /**
      The callback call of `_cardcheck`: `get_card()` and `get_facility_code()` are
      evaluated first, and the first one to raise ends the tick.
    */
    method Deliver(bitLength: nat) returns (t: Tick)
      requires Valid() && lastCard.Some? && |lastFrame| == bitLength
      ensures t == Delivered(lastCard.value, cardsRead, bitLength)
    {
      if LayoutFor(bitLength).Some? {
        var l := LayoutFor(bitLength).value;
        AndMaskShr(lastCard.value, l.cardLow, l.cardWidth);
        AndMaskShr(lastCard.value, l.facilityLow, l.facilityWidth);
      }
      var card := GetCard();
      if card.Err? {
        return Raised(card.error);
      }
      var facility := GetFacilityCode();
      if facility.Err? {
        return Raised(TypeError);
      }
      return Callback(card.value, facility.value, cardsRead, bitLength);
    }
  }

  /**
    What a tick that closes a frame of value `v` and length `bitLength`, as the
    `count`-th frame, reports: the fields of `v` at the positions of its format, or
    TypeError when the length has none.
  */
  function Delivered(v: nat, count: nat, bitLength: nat): Tick
  {
    match LayoutFor(bitLength)
    case None => Raised(TypeError)
    case Some(l) =>
      Callback(Some(Field(v, l.cardLow, l.cardWidth)), Some(Field(v, l.facilityLow, l.facilityWidth)),
               count, bitLength)
  }

  lemma {:induction false} AndAtMostLeft(a: nat, b: nat)
    ensures And(a, b) <= a
  {
    if a != 0 && b != 0 {
      AndAtMostLeft(a / 2, b / 2);
    }
  }

  lemma {:induction false} ShrAtMost(a: nat, k: nat)
    ensures Shr(a, k) <= a
  {
    if k > 0 {
      ShrAtMost(a / 2, k - 1);
    }
  }

  /**
    What the accessors report after a frame has completed: for a known length, the card
    number and facility code are the big-endian values of the wire bits at the format's
    field positions, and so below `2^width`; for any other length both raise TypeError.
  */
  lemma DecodedFields(w: Wiegand)
    requires w.Valid() && w.lastCard.Some?
    ensures LayoutFor(|w.lastFrame|).None? ==>
      w.GetCard() == Err(TypeError) && w.GetFacilityCode() == Err(TypeError)
    ensures LayoutFor(|w.lastFrame|).Some? ==>
      var s, l := w.lastFrame, LayoutFor(|w.lastFrame|).value;
      && w.GetCard() == Ok(Some(BigEndian(s[|s| - l.cardLow - l.cardWidth..|s| - l.cardLow])))
      && w.GetFacilityCode() == Ok(Some(BigEndian(s[|s| - l.facilityLow - l.facilityWidth..|s| - l.facilityLow])))
      && w.GetCard().value.value < Pow2(l.cardWidth)
      && w.GetFacilityCode().value.value < Pow2(l.facilityWidth)
  {
    var s := w.lastFrame;
    if LayoutFor(|s|).Some? {
      var l := LayoutFor(|s|).value;
      AndMaskShr(BigEndian(s), l.cardLow, l.cardWidth);
      AndMaskShr(BigEndian(s), l.facilityLow, l.facilityWidth);
      FieldOfBits(s, l.cardLow, l.cardWidth);
      FieldOfBits(s, l.facilityLow, l.facilityWidth);
    }
  }

  /**
    The 26-bit H10301 row: for any frame value `v`, the card number `(v & 0x1FFFE) >> 1`
    is bits 1..16 of `v` and below 2^16, and the facility code `(v & 0x1FE0000) >> 17` is
    bits 17..24 and below 2^8.
  */
  lemma H10301Fields(v: nat)
    ensures Shr(And(v, CARD_MASK_WG26), CARD_MASK_OFFSET_WG26) == Field(v, 1, 16) < 0x1_0000
    ensures Shr(And(v, FACILITY_MASK_WG26), FACILITY_MASK_OFFSET_WG26) == Field(v, 17, 8) < 0x100
  {
    TableMasks();
    assert Pow2(8) == 0x100 && Pow2(16) == 0x1_0000;
    AndMaskShr(v, 1, 16);
    AndMaskShr(v, 17, 8);
  }

  /**
    A received 26-bit frame reads as: leading parity bit, 8 facility bits, 16 card bits,
    trailing parity bit; neither parity bit is checked or reported.
  */
  lemma H10301Frame(s: seq<bool>)
    requires |s| == 26
    ensures Shr(And(BigEndian(s), CARD_MASK_WG26), CARD_MASK_OFFSET_WG26) == BigEndian(s[9..25])
    ensures Shr(And(BigEndian(s), FACILITY_MASK_WG26), FACILITY_MASK_OFFSET_WG26) == BigEndian(s[1..9])
  {
    H10301Fields(BigEndian(s));
    FieldOfBits(s, 1, 16);
    FieldOfBits(s, 17, 8);
  }

  /**
    However many edges have been accepted since the last reset, the accumulator holds
    exactly that many bits: `bits` counts them and `nextCard` stays below `2^bits`.
  */
  lemma AccumulatorBound(w: Wiegand)
    requires w.Valid()
    ensures w.bits == |w.frame| && w.nextCard < Pow2(w.bits)
    ensures w.lastBitRead.None? ==> w.bits == 0 && w.nextCard == 0
  {
    BigEndianBound(w.frame);
  }

  /** A frame of a known length carries a value below 2^35, whatever its bits. */
  lemma KnownFrameBound(s: seq<bool>)
    requires FormatFor(|s|).Some?
    ensures BigEndian(s) < Pow2(35)
  {
    BigEndianBound(s);
    Pow2Monotone(|s|, 35);
  }

  lemma {:induction false} Pow2Monotone(m: nat, n: nat)
    requires m <= n
    ensures Pow2(m) <= Pow2(n)
  {
    if m < n {
      Pow2Monotone(m, n - 1);
    }
  }

  /**
    Two edges 1 ms apart keep only the first; ticks up to 50 ms after it leave the frame
    open; the first tick later than that completes a 1-bit frame, which has no format,
    so the callback is never reached.
  */
  method BounceAndUnknownLength()
  {
    var w := new Wiegand(4, 5);
    w.OnPin1(100);
    w.OnPin0(101);
    assert w.frame == [true] && w.nextCard == 1;
    var t := w.CardCheck(150);
    assert t == Idle && w.bits == 1;
    t := w.CardCheck(151);
    assert t == Raised(TypeError);
    assert w.cardsRead == 1 && w.lastCard == Some(1) && w.bits == 0 && w.lastBitRead.None?;
    w.OnPin0(151);
    assert w.frame == [false];
  }
}
