/**
  The card module of src/modules/cards.py: it checks the reader configuration, builds the
  one supported reader, and on every decoded frame looks the raw frame value up in the
  card store and decides which event, if any, to fire. The event bus is not modelled:
  the decision is returned as a value.
*/
module Cards {
  import opened Wrappers
  import opened CardsStorage
  import opened Bits
  import W = Wiegand

  /** One configured reader: its type tag and the pins of its two data lines. */
  datatype ReaderConfig = ReaderConfig(kind: string, pinD0: int, pinD1: int)

  const WIEGAND_READER: string := "wiegand.py"

  /**
    The start-up checks: more than one reader, or a first reader of another type, is
    rejected with NotImplementedError; an empty list fails on `readers[0]` with
    IndexError. The one accepted configuration is a single Wiegand reader.
  */
  function SelectReader(readers: seq<ReaderConfig>): (r: Result<ReaderConfig, Exception>)
    ensures r.Ok? <==> |readers| == 1 && readers[0].kind == WIEGAND_READER
    ensures r.Ok? ==> r.value == readers[0]
    ensures |readers| > 1 ==> r == Err(NotImplementedError)
    ensures |readers| == 1 && readers[0].kind != WIEGAND_READER ==> r == Err(NotImplementedError)
    ensures |readers| == 0 ==> r == Err(IndexError)
  {
    if |readers| > 1 then Err(NotImplementedError)
    else if |readers| == 0 then Err(IndexError)
    else if readers[0].kind != WIEGAND_READER then Err(NotImplementedError)
    else Ok(readers[0])
  }

  /**
    Module start-up: after the checks, the reader is built with the configuration's D1
    pin as its zero line and its D0 pin as its one line.
  */
  method Start(readers: seq<ReaderConfig>) returns (r: Result<W.Wiegand, Exception>)
    ensures r.Err? <==> SelectReader(readers).Err?
    ensures r.Err? ==> r.error == SelectReader(readers).error
    ensures r.Ok? ==>
      && fresh(r.value) && r.value.Valid() && r.value.cardsRead == 0 && r.value.lastCard.None?
      && r.value.lastBitRead.None? && r.value.nextCard == 0 && r.value.bits == 0 && r.value.frame == []
      && r.value.pin0 == readers[0].pinD1 && r.value.pin1 == readers[0].pinD0
  {
    var cfg := SelectReader(readers);
    if cfg.Err? {
      return Err(cfg.error);
    }
    var reader := new W.Wiegand(cfg.value.pinD1, cfg.value.pinD0);
    return Ok(reader);
  }

  /** The events `on_card` fires. */
  datatype Event = CardNotKnown(rawId: nat) | CardValidated(record: Record)

  /** `'d' in card and card['d']`. */
  predicate Disabled(record: Record)
  {
    "d" in record && Truthy(record["d"])
  }

  /** Python truthiness of what `get` returned: False and an empty dict are both falsy. */
  predicate Known(card: Lookup)
  {
    card.Found? && card.record != map[]
  }

  /**
    The decision of `on_card` on a lookup result: at most one event. A falsy result fires
    `card_not_known` with the raw id; a disabled record fires nothing; any other record
    fires `card_validated` with that record.
  */
  function Classify(rawId: nat, card: Lookup): (e: Option<Event>)
    ensures e == Some(CardNotKnown(rawId)) <==> !Known(card)
    ensures e.None? <==> Known(card) && Disabled(card.record)
    ensures card.Found? && e == Some(CardValidated(card.record)) <==> Known(card) && !Disabled(card.record)
  {
    if !Known(card) then Some(CardNotKnown(rawId))
    else if Disabled(card.record) then None
    else Some(CardValidated(card.record))
  }

  /**
    The callback `on_card`. Its arguments are only logged: the store is searched for the
    reader's raw frame value `last_card`, encoded as an int id, and the result decides
    the event. Before any frame `last_card` is None and encoding it raises.
  */
  function OnCard(store: CardStore, reader: W.Wiegand, cardNumber: Option<nat>, facilityCode: Option<nat>,
                  cardsRead: nat, bitLength: nat): (r: Result<Option<Event>, Exception>)
    reads store, reader
    ensures reader.lastCard.None? ==> r == Err(AttributeError)
    ensures reader.lastCard.Some? ==>
      var id := reader.lastCard.value;
      var key := ToLittleEndian(id, UID_BYTES);
      && (r.Ok? <==> id < Pow256(UID_BYTES))
      && (r.Err? ==> r.error == OverflowError)
      && (r.Ok? ==> r.value == Classify(id, if key in store.db then Found(store.db[key]) else NotFound))
  {
    if reader.lastCard.None? then
      Err(AttributeError)
    else
      var id := reader.lastCard.value;
      match store.Get(IntUid(id))
      case Err(e) => Err(e)
      case Ok(card) => Ok(Classify(id, card))
  }

  /** What one timer tick of the running module ends in. */
  datatype TickOutcome = NoFrame | Handled(event: Option<Event>) | Failed(error: Exception)

  /**
    One timer tick with `on_card` as the callback. A frame of a supported length is
    always looked up successfully (its value is below 2^35, well inside the 5-byte key),
    so the only failure is the TypeError of a length outside the table.
  */
  method OnTimer(reader: W.Wiegand, store: CardStore, now: nat) returns (r: TickOutcome)
    requires reader.Valid()
    modifies reader
    ensures reader.Valid()
    ensures r.NoFrame? <==> !W.Finalises(old(reader.lastBitRead), now)
    ensures r.Failed? <==> W.Finalises(old(reader.lastBitRead), now) && W.FormatFor(old(reader.bits)).None?
    ensures r.Failed? ==> r.error == TypeError
    ensures r.NoFrame? ==> unchanged(reader)
    ensures !r.NoFrame? ==>
      && reader.lastBitRead.None? && reader.nextCard == 0 && reader.bits == 0 && reader.frame == []
      && reader.lastCard == Some(old(reader.nextCard)) && reader.lastFrame == old(reader.frame)
      && reader.cardsRead == old(reader.cardsRead) + 1
      && reader.Selects(W.FormatFor(old(reader.bits)))
    ensures r.Handled? ==>
      && var key := ToLittleEndian(old(reader.nextCard), UID_BYTES);
         r.event == Classify(old(reader.nextCard), if key in store.db then Found(store.db[key]) else NotFound)
  {
    var t := reader.CardCheck(now);
    match t {
      case Idle =>
        r := NoFrame;
      case Raised(e) =>
        r := Failed(e);
      case Callback(card, facility, count, bits) =>
        W.KnownFrameBound(reader.lastFrame);
        FrameFitsKey();
        var e := OnCard(store, reader, card, facility, count, bits);
        r := Handled(e.value);
    }
  }

  /** Any frame of a supported length fits the 5 bytes of an int key. */
  lemma FrameFitsKey()
    ensures Pow2(35) < Pow256(UID_BYTES)
  {
    assert Pow2(8) == 0x100;
    assert Pow2(16) == 0x1_0000;
    assert Pow2(24) == 0x100_0000;
    assert Pow2(32) == 0x1_0000_0000;
    assert Pow2(35) == 0x8_0000_0000;
    assert Pow256(2) == 0x1_0000;
    assert Pow256(5) == 0x100_0000_0000;
  }

  /**
    Saving a non-empty record with no truthy `d` under a frame value's int id (the store
    `Save` leaves behind) makes the next `on_card` for that frame validate the card with
    that record.
  */
  lemma SavedCardIsValidated(store: CardStore, reader: W.Wiegand, db0: map<Key, Record>, id: nat,
                             record: Record, card: Option<nat>, facility: Option<nat>, count: nat, bits: nat)
    requires reader.lastCard == Some(id) && id < Pow256(UID_BYTES)
    requires store.db == db0[ToLittleEndian(id, UID_BYTES) := record]
    requires record != map[] && !Disabled(record)
    ensures OnCard(store, reader, card, facility, count, bits) == Ok(Some(CardValidated(record)))
  {
  }

  /**
    After `Save` deletes a frame value's int id, the next `on_card` for that frame reports
    the card as not known, with the raw frame value.
  */
  lemma DeletedCardIsNotKnown(store: CardStore, reader: W.Wiegand, db0: map<Key, Record>, id: nat,
                              card: Option<nat>, facility: Option<nat>, count: nat, bits: nat)
    requires reader.lastCard == Some(id) && id < Pow256(UID_BYTES)
    requires store.db == db0 - {ToLittleEndian(id, UID_BYTES)}
    ensures OnCard(store, reader, card, facility, count, bits) == Ok(Some(CardNotKnown(id)))
  {
  }
}
