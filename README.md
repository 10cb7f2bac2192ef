# Wiegand card reader decoder, card store and card events

A Dafny model of the card-reading core of esp-rfid-py, a MicroPython access-control
firmware:

- `wiegand.dfy` models the `Wiegand` decoder of `lib/wiegand.py`. The reader pulses one
  data line per 0 bit and the other per 1 bit. The falling-edge handler (`OnPin`)
  discards an edge within 2 ms of the last accepted one. Otherwise it shifts the bit into
  the unbounded accumulator `nextCard` and counts it in `bits`. The 50 ms timer
  (`CardCheck`) closes a frame once more than 50 ms have passed since the last accepted
  edge. It moves the accumulator into `lastCard`, resets the buffer, counts the frame in
  `cardsRead`, selects the mask/offset quadruple for the frame length (26, 32, 34 or 35
  bits) and calls the callback with the card number, facility code, frame count and bit
  length. Both handlers are atomic methods of the class that a caller may interleave
  in any order. The clock reading `now` is a parameter, in milliseconds. The class
  invariant `Valid` ties the integer fields to ghost copies of the received bits:
  `nextCard` is the big-endian value of the frame in progress, and `lastCard` is the
  big-endian value of the last completed frame. The selected masks belong to that
  frame's length.
- `bits.dfy` gives Python's `&`, `|` and `>>` on non-negative integers their bit-by-bit
  meaning. The source's literal mask constants are therefore used unchanged, and
  `(v & MASK) >> OFFSET` is proved to extract exactly the documented bit field.
- `cards_storage.dfy` models `src/modules/cards_storage.py`. Card records are kept in a
  map from key bytes to record (the class `CardStore`). An int id is keyed by its
  5 little-endian bytes and a str id by its UTF-8 bytes (`EncodeUid`). `Save` deletes,
  replaces or rejects, and `Get` looks a record up.
- `cards.dfy` models `src/modules/cards.py`: the start-up checks on the reader list, the
  wiring of the reader's pins, and the decision `on_card` makes about a decoded frame.
  That decision is returned as a value: "card not known", nothing for a disabled card,
  or "card validated".

Behaviours of the code that the model keeps as written:

- For a frame length outside the table the callback is never called. `_cardcheck`
  clears both masks to None (lib/wiegand.py:104-105) and then evaluates `get_card()`,
  where `last_card & None` raises TypeError (lib/wiegand.py:127). By then the frame has
  been counted and the buffer reset. `CardCheck` returns `Raised(TypeError)` in that
  case. Only the two masks are cleared: the offsets keep the values of the previous
  supported frame.
- The inactivity test is strict, `> 50` (lib/wiegand.py:95): a frame closes only when
  more than 50 ms have passed since the last accepted edge.
- `on_card` looks the card up by the raw frame value `reader.last_card`, parity bits
  included (src/modules/cards.py:26). It does not use the decoded card number it is
  passed.
- The 34-bit row of the table (commented "HID Standard H10306", lib/wiegand.py:25-29)
  reuses the 26-bit positions: a 16-bit card number at bit 1 and an 8-bit facility code
  at bit 17.

## Model

| member | source | states |
|---|---|---|
| `Wiegand.LayoutFor` | lib/wiegand.py:13-35 | Exactly the lengths 26, 32, 34 and 35 have a field layout. In each layout the card field lies below the facility field and both fit inside the frame. |
| `Wiegand.FormatFor` | lib/wiegand.py:104-125 | The format table has an entry exactly for the lengths of `LayoutFor`. Each mask constant is the run of ones over its field, and each offset is the field's lowest bit. |
| `Wiegand.TableMasks` | lib/wiegand.py:14-35 | The literal masks are runs of ones: 16 at bit 1, 8 at bit 17, 16 at bit 0, 12 at bit 16, 20 at bit 1 and 12 at bit 21. |
| `Wiegand.Wiegand.constructor` | lib/wiegand.py:43-66 | A new decoder has no completed frame, an empty buffer, no last-bit time, a zero count and all four mask/offset fields None. It keeps the zero-line and one-line pins. |
| `Wiegand.Wiegand.OnPin` | lib/wiegand.py:71-80 | An edge less than 2 ms after the last accepted edge changes nothing. Any other edge sets the last-bit time to `now`, doubles the accumulator and adds 1 for the one line, and counts one more bit. The frame gains that bit and nothing else changes. |
| `Wiegand.Wiegand.OnPin0` | lib/wiegand.py:68 | An edge on `pin0` is debounced as in `OnPin` and, when accepted, shifts in a 0 bit and changes nothing else. |
| `Wiegand.Wiegand.OnPin1` | lib/wiegand.py:69 | An edge on `pin1` is debounced as in `OnPin` and, when accepted, shifts in a 1 bit and changes nothing else. |
| `Wiegand.Wiegand.GetCard` | lib/wiegand.py:82-85 | Returns None exactly when no frame has completed. Raises TypeError exactly when a frame has completed and the card mask (or its offset) is None. A returned value never exceeds the raw frame value. |
| `Wiegand.Wiegand.GetFacilityCode` | lib/wiegand.py:87-90 | As `GetCard`, for the facility mask and offset. |
| `Wiegand.Wiegand.CardCheck` | lib/wiegand.py:92-127 | Does nothing without a frame in progress, or within 50 ms of the last edge (strict `>`). Otherwise the old accumulator becomes the last card and the buffer resets to 0 / 0 / None, so the next edge is always accepted. The count rises by exactly 1 and the masks of the frame's length are selected. The tick then delivers the decoded fields, or raises TypeError for a length outside the table. |
| `Wiegand.Wiegand.Finalise` | lib/wiegand.py:96-102 | The accumulator moves into `lastCard` and the buffer is emptied. The frame that was closed had at least one bit, and the count rises by exactly 1. |
| `Wiegand.Wiegand.SelectFormat` | lib/wiegand.py:104-125 | Loads the four mask/offset fields from the table entry of the length. For a length without an entry it clears only the two masks and keeps the offsets. |
| `Wiegand.Wiegand.Deliver` | lib/wiegand.py:127 | The callback receives the card field and facility field of the frame value, the frame count and the bit length. For a length outside the table the tick raises TypeError instead. |
| `Wiegand.DecodedFields` | lib/wiegand.py:82-90 | After a frame completes, the card number and facility code are the big-endian values of the received wire bits at the format's field positions, and so are below `2^width`. For an unsupported length both accessors raise TypeError. |
| `Wiegand.H10301Fields` | lib/wiegand.py:13-17 | For any 26-bit frame value V, `(V & 0x1FFFE) >> 1` is bits 1..16 of V and below 2^16, and `(V & 0x1FE0000) >> 17` is bits 17..24 of V and below 2^8. |
| `Wiegand.H10301Frame` | lib/wiegand.py:13-17 | In a received 26-bit frame, the card number is wire bits 9..24 and the facility code is wire bits 1..8, both read big-endian. The parity bits 0 and 25 are dropped. |
| `Wiegand.AccumulatorBound` | lib/wiegand.py:77-80 | `bits` counts the bits received since the last reset and the accumulator stays below `2^bits`. Both are 0 while no frame is in progress. |
| `Wiegand.KnownFrameBound` | lib/wiegand.py:106-125 | The value of a frame with a supported length is below 2^35. |
| `Bits.AndMaskShr` | lib/wiegand.py:85 | `(v & Mask(low, width)) >> low` is exactly bits `low`..`low+width-1` of `v`. |
| `Bits.FieldOfBits` | lib/wiegand.py:78-79 | A bit field of the accumulated value is the big-endian value of the matching run of received bits. |
| `Bits.BigEndianBound` | lib/wiegand.py:78-80 | The value of n shifted-in bits is below 2^n. |
| `Bits.OrOne` | lib/wiegand.py:79 | After the left shift, `next_card \|= 1` adds exactly one. |
| `CardsStorage.EncodeUid` | src/modules/cards_storage.py:37-41 | An int id in 0 .. 2^40-1 becomes exactly 5 bytes, and decoding them little-endian gives the id back. Any other int raises OverflowError. A str id becomes the one byte string that decodes as (strict) UTF-8 to it. |
| `CardsStorage.LittleEndianRoundTrip` | src/modules/cards_storage.py:39 | `int.from_bytes(n.to_bytes(k, "little"), "little") == n` for every n below `256^k`. |
| `CardsStorage.Utf8RoundTrip` | src/modules/cards_storage.py:41 | Decoding the UTF-8 bytes of a string gives the string back. |
| `CardsStorage.Utf8Unique` | src/modules/cards_storage.py:41 | Any bytes that decode to a string are exactly its UTF-8 bytes: the decoder refuses overlong forms, surrogates and values past U+10FFFF. |
| `CardsStorage.Utf8OnlyEncoding` | src/modules/cards_storage.py:41 | Bytes decode to a string if and only if they are its UTF-8 encoding. |
| `CardsStorage.OverlongRejected` | src/modules/cards_storage.py:41 | The overlong two-byte form 0xC1 0x81 of "A" does not decode. |
| `CardsStorage.EncodeUidInjective` | src/modules/cards_storage.py:37-41 | Two int ids, or two str ids, that encode to the same key are equal. |
| `CardsStorage.IntAndStrIdsCollide` | src/modules/cards_storage.py:37-41 | An int id and a str id can share a key: 0x6564636261 and "abcde" are both stored under the bytes 61 62 63 64 65. |
| `CardsStorage.CardStore.constructor` | src/modules/cards_storage.py:14-19 | Opening the store gives exactly the records persisted in the file: those saved before when `cards.db` exists (lines 15-16), none when it is created afresh (line 18). |
| `CardsStorage.CardStore.Get` | src/modules/cards_storage.py:33-35 | Returns the record stored under the id's key, or False when that key is absent. It fails exactly when the id cannot be encoded. |
| `CardsStorage.CardStore.Save` | src/modules/cards_storage.py:21-29 | A value equal to False (False or 0) removes the id's key, and a missing key is not an error. A dict is stored so that `Get` returns it afterwards. Any other value raises TypeError and leaves the store unchanged. Every other key, and every other id's lookup, is unchanged. |
| `Cards.SelectReader` | src/modules/cards.py:12-18 | Start-up succeeds exactly for one reader of type `wiegand.py`. More than one reader, or another type, raises NotImplementedError. An empty list raises IndexError at `readers[0]`. |
| `Cards.Start` | src/modules/cards.py:37-38 | After the checks, the reader is built with `pin_d1` as its zero line and `pin_d0` as its one line. It starts with no frames read and an empty buffer (no last-bit time, accumulator and bit count 0), so its first edge is accepted and its first tick is idle. |
| `Cards.Classify` | src/modules/cards.py:27-35 | Fires at most one event. A falsy lookup (absent or an empty record) fires `card_not_known` with the raw id. A record with a truthy `d` fires nothing. Any other record fires `card_validated` with that record. |
| `Cards.OnCard` | src/modules/cards.py:20-35 | The lookup key is the 5-byte little-endian encoding of the raw frame value `reader.last_card`, whatever card number is passed. The event is the classification of that lookup. Without a completed frame the call raises AttributeError, and a raw value of 2^40 or more raises OverflowError. |
| `Cards.OnTimer` | src/modules/cards.py:38 | With `on_card` as the callback, a timer tick leaves the reader unchanged when no frame closes. Otherwise the reader's buffer is reset, the old accumulator becomes the last card, one more frame is counted and the masks of the frame's length are selected. The tick then fires the classified event of that frame, or fails, exactly for a length outside the table, with TypeError. A supported frame is never rejected by the store. |
| `Cards.FrameFitsKey` | src/modules/cards.py:26 | Every frame value below 2^35 fits the 5-byte int key. |
| `Cards.SavedCardIsValidated` | src/modules/cards.py:26-35 | When the store is what `Save` leaves after storing a non-empty, not-disabled record under the frame value's int id, `OnCard` for a reader holding that frame validates the card with that record, whatever arguments it is passed. |
| `Cards.DeletedCardIsNotKnown` | src/modules/cards.py:26-30 | When the store is what `Save` leaves after deleting the frame value's int id, `OnCard` for a reader holding that frame reports the card as not known with the raw frame value. |

## Left out

- Pin and timer hardware (`machine.Pin`, `Timer`, IRQ registration). The two edge
  handlers and the timer tick are plain method calls with the time as a parameter.
- Preemption of the timer tick by an edge interrupt. Each handler is one atomic step,
  and any interleaving of whole steps is covered by the class invariant.
- The wrap-around of `utime.ticks_ms`. Time is an unbounded `nat`; the differences are
  taken as plain integer subtraction, as the source writes them.
- The body of the callback and `events.fire`. `CardCheck` returns the callback's
  arguments and `OnCard` returns the event to fire.
- The B-tree file, `db.flush()` and the `flush` argument of `save`. Also the JSON text
  that records are serialised to: records are stored and returned as the dict that
  was saved, i.e. JSON serialisation is taken to round-trip.
- `export()`, which formats the whole store as JSON text.
- Logging calls.
- Floating-point JSON numbers (so `0.0 == False` is not modelled), and ids that are
  neither int nor str.
- CardsStorage.EncodeUid: follows CPython's `int.to_bytes`, which raises OverflowError
  for a negative value or one of 2^40 or more. MicroPython builds may truncate instead.
  Ids coming from the reader are always below 2^35 (`Cards.OnTimer`), so this
  difference does not arise on that path.
- Reader configurations missing the `type`, `pin_d0` or `pin_d1` keys (a KeyError at
  start-up). A configured reader is a record with all three fields.
