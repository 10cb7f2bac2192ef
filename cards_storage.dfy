/**
  The card store of src/modules/cards_storage.py: records keyed by an encoded card id.
  An integer id is keyed by its 5 little-endian bytes, a string id by its UTF-8 bytes.
  The on-disk B-tree is the in-memory map `db`, and a record is kept as the dictionary
  it was saved as (the JSON text it is serialised to is not modelled).
*/
module CardsStorage {
  import opened Wrappers
  import Bits

  newtype byte = b: int | 0 <= b < 0x100

  type Key = seq<byte>

  /** A JSON-like value; numbers are integers. */
  datatype Json =
    | JNull
    | JBool(b: bool)
    | JNum(n: int)
    | JStr(s: string)
    | JArr(items: seq<Json>)
    | JObj(fields: map<string, Json>)

  /** A card record: one-character keys are reserved (`n` the name, `d` disabled). */
  type Record = map<string, Json>

  /** A card id as the callers pass it: a Python int or a Python str. */
  datatype Uid = IntUid(n: int) | StrUid(s: string)

  /** `encode_uid` writes an int id into this many bytes. */
  const UID_BYTES: nat := 5

  /** Python truthiness of a JSON value. */
  predicate Truthy(v: Json)
  {
    match v
    case JNull => false
    case JBool(b) => b
    case JNum(n) => n != 0
    case JStr(s) => s != ""
    case JArr(items) => items != []
    case JObj(fields) => fields != map[]
  }

  /** Python's `data == False`: true for `False` and for the number 0. */
  predicate EqualsFalse(data: Json)
  {
    data == JBool(false) || data == JNum(0)
  }

  function Pow256(k: nat): (r: nat)
    ensures r >= 1
  {
    if k == 0 then 1 else 0x100 * Pow256(k - 1)
  }

  /** `n.to_bytes(k, "little")` for a value that fits. */
  function ToLittleEndian(n: nat, k: nat): (bs: seq<byte>)
    ensures |bs| == k
  {
    if k == 0 then [] else [(n % 0x100) as byte] + ToLittleEndian(n / 0x100, k - 1)
  }

  /** `int.from_bytes(bs, "little")`. */
  function FromLittleEndian(bs: seq<byte>): (n: nat)
    ensures n < Pow256(|bs|)
  {
    if bs == [] then 0 else bs[0] as nat + 0x100 * FromLittleEndian(bs[1..])
  }

  lemma {:induction false} LittleEndianRoundTrip(n: nat, k: nat)
    requires n < Pow256(k)
    ensures FromLittleEndian(ToLittleEndian(n, k)) == n
  {
    if k > 0 {
      var bs := ToLittleEndian(n, k);
      LittleEndianRoundTrip(n / 0x100, k - 1);
      assert bs[1..] == ToLittleEndian(n / 0x100, k - 1);
    }
  }

  /** The UTF-8 bytes of one Unicode scalar value. */
  function Utf8Char(c: char): (bs: seq<byte>)
    ensures 1 <= |bs| <= 4
  {
    var cp := c as int;
    if cp < 0x80 then [cp as byte]
    else if cp < 0x800 then [(0xC0 + cp / 0x40) as byte, (0x80 + cp % 0x40) as byte]
    else if cp < 0x1_0000 then
      [(0xE0 + cp / 0x1000) as byte, (0x80 + (cp / 0x40) % 0x40) as byte, (0x80 + cp % 0x40) as byte]
    else
      [(0xF0 + cp / 0x4_0000) as byte, (0x80 + (cp / 0x1000) % 0x40) as byte,
       (0x80 + (cp / 0x40) % 0x40) as byte, (0x80 + cp % 0x40) as byte]
  }

  /** `s.encode()`: the UTF-8 bytes of a string. */
  function Utf8(s: string): (bs: seq<byte>)
    ensures |s| <= |bs| <= 4 * |s|
  {
    if s == [] then [] else Utf8Char(s[0]) + Utf8(s[1..])
  }

  predicate IsContinuation(b: byte)
  {
    0x80 <= b < 0xC0
  }

  /**
    The character read from `n` bytes with code point `cp`. A surrogate or a value past
    U+10FFFF is rejected, and so is an overlong form: a code point below `least`, which
    fewer bytes could have held.
  */
  function Scalar(cp: int, least: int, n: nat): (r: Option<(char, nat)>)
    ensures r.Some? ==> r.value.0 as int == cp && r.value.1 == n && least <= cp
  {
    if least <= cp && (0 <= cp < 0xD800 || 0xE000 <= cp < 0x11_0000) then Some((cp as char, n)) else None
  }

  /** Reads one character off the front of UTF-8 bytes, with the number of bytes it used. */
  function DecodeChar(bs: seq<byte>): (r: Option<(char, nat)>)
    requires bs != []
    ensures r.Some? ==> 1 <= r.value.1 <= |bs|
  {
    var b0 := bs[0] as int;
    if b0 < 0x80 then
      Some((b0 as char, 1))
    else if 0xC0 <= b0 < 0xE0 && |bs| >= 2 && IsContinuation(bs[1]) then
      Scalar((b0 - 0xC0) * 0x40 + (bs[1] as int - 0x80), 0x80, 2)
    else if 0xE0 <= b0 < 0xF0 && |bs| >= 3 && IsContinuation(bs[1]) && IsContinuation(bs[2]) then
      Scalar(((b0 - 0xE0) * 0x40 + (bs[1] as int - 0x80)) * 0x40 + (bs[2] as int - 0x80), 0x800, 3)
    else if 0xF0 <= b0 < 0xF8 && |bs| >= 4 && IsContinuation(bs[1]) && IsContinuation(bs[2])
         && IsContinuation(bs[3]) then
      Scalar((((b0 - 0xF0) * 0x40 + (bs[1] as int - 0x80)) * 0x40 + (bs[2] as int - 0x80)) * 0x40
             + (bs[3] as int - 0x80), 0x1_0000, 4)
    else
      None
  }

  /** `bs.decode()`: the string whose UTF-8 bytes are `bs`, if there is one. */
  function DecodeUtf8(bs: seq<byte>): Option<string>
    decreases |bs|
  {
    if bs == [] then Some([])
    else
      match DecodeChar(bs)
      case None => None
      case Some((c, n)) =>
        match DecodeUtf8(bs[n..])
        case None => None
        case Some(rest) => Some([c] + rest)
  }

  lemma DecodeCharOfUtf8Char(c: char, rest: seq<byte>)
    ensures DecodeChar(Utf8Char(c) + rest) == Some((c, |Utf8Char(c)|))
  {
    var cp := c as int;
    if cp < 0x80 {
    } else if cp < 0x800 {
      DecodeTwo(cp, Utf8Char(c) + rest);
    } else if cp < 0x1_0000 {
      DecodeThree(cp, Utf8Char(c) + rest);
    } else {
      DecodeFour(cp, Utf8Char(c) + rest);
    }
  }

  lemma DecodeTwo(cp: int, bs: seq<byte>)
    requires 0x80 <= cp < 0x800 && |bs| >= 2
    requires bs[0] as int == 0xC0 + cp / 0x40 && bs[1] as int == 0x80 + cp % 0x40
    ensures (bs[0] as int - 0xC0) * 0x40 + (bs[1] as int - 0x80) == cp
  {
  }

  lemma DecodeThree(cp: int, bs: seq<byte>)
    requires 0x800 <= cp < 0x1_0000 && |bs| >= 3
    requires bs[0] as int == 0xE0 + cp / 0x1000 && bs[1] as int == 0x80 + (cp / 0x40) % 0x40
    requires bs[2] as int == 0x80 + cp % 0x40
    ensures ((bs[0] as int - 0xE0) * 0x40 + (bs[1] as int - 0x80)) * 0x40 + (bs[2] as int - 0x80) == cp
  {
  }

  lemma DecodeFour(cp: int, bs: seq<byte>)
    requires 0x1_0000 <= cp < 0x11_0000 && |bs| >= 4
    requires bs[0] as int == 0xF0 + cp / 0x4_0000 && bs[1] as int == 0x80 + (cp / 0x1000) % 0x40
    requires bs[2] as int == 0x80 + (cp / 0x40) % 0x40 && bs[3] as int == 0x80 + cp % 0x40
    ensures (((bs[0] as int - 0xF0) * 0x40 + (bs[1] as int - 0x80)) * 0x40 + (bs[2] as int - 0x80)) * 0x40
            + (bs[3] as int - 0x80) == cp
  {
  }

  /** Decoding undoes `encode()`, so distinct strings are distinct keys. */
  lemma {:induction false} Utf8RoundTrip(s: string)
    ensures DecodeUtf8(Utf8(s)) == Some(s)
  {
    if s != [] {
      var head, tail := Utf8Char(s[0]), Utf8(s[1..]);
      DecodeCharOfUtf8Char(s[0], tail);
      assert (head + tail)[|head|..] == tail;
      Utf8RoundTrip(s[1..]);
      assert [s[0]] + s[1..] == s;
    }
  }

  /** The bytes one decoded character was read from are exactly its UTF-8 bytes. */
  lemma EncodeOfDecodeChar(bs: seq<byte>)
    requires bs != [] && DecodeChar(bs).Some?
    ensures bs[..DecodeChar(bs).value.1] == Utf8Char(DecodeChar(bs).value.0)
  {
    var b0 := bs[0] as int;
    var c := DecodeChar(bs).value.0;
    if b0 < 0x80 {
    } else if b0 < 0xE0 {
      EncodeTwo(bs, c as int);
    } else if b0 < 0xF0 {
      EncodeThree(bs, c as int);
    } else {
      EncodeFour(bs, c as int);
    }
  }

  lemma EncodeTwo(bs: seq<byte>, cp: int)
    requires |bs| >= 2 && 0xC0 <= bs[0] < 0xE0 && IsContinuation(bs[1]) && 0x80 <= cp < 0x800
    requires cp == (bs[0] as int - 0xC0) * 0x40 + (bs[1] as int - 0x80)
    ensures bs[..2] == [(0xC0 + cp / 0x40) as byte, (0x80 + cp % 0x40) as byte]
  {
    Bits.DivModUnique(cp, 0x40, bs[0] as int - 0xC0, bs[1] as int - 0x80);
  }

  lemma EncodeThree(bs: seq<byte>, cp: int)
    requires |bs| >= 3 && 0xE0 <= bs[0] < 0xF0 && IsContinuation(bs[1]) && IsContinuation(bs[2])
    requires 0x800 <= cp < 0x1_0000
    requires cp == ((bs[0] as int - 0xE0) * 0x40 + (bs[1] as int - 0x80)) * 0x40 + (bs[2] as int - 0x80)
    ensures bs[..3] == [(0xE0 + cp / 0x1000) as byte, (0x80 + (cp / 0x40) % 0x40) as byte,
                        (0x80 + cp % 0x40) as byte]
  {
    var x, y, z := bs[0] as int - 0xE0, bs[1] as int - 0x80, bs[2] as int - 0x80;
    Bits.DivModUnique(cp, 0x40, x * 0x40 + y, z);
    Bits.DivModUnique(cp / 0x40, 0x40, x, y);
    Bits.DivModUnique(cp, 0x1000, x, y * 0x40 + z);
  }

  lemma EncodeFour(bs: seq<byte>, cp: int)
    requires |bs| >= 4 && 0xF0 <= bs[0] < 0xF8 && IsContinuation(bs[1]) && IsContinuation(bs[2])
    requires IsContinuation(bs[3]) && 0x1_0000 <= cp < 0x11_0000
    requires cp == (((bs[0] as int - 0xF0) * 0x40 + (bs[1] as int - 0x80)) * 0x40 + (bs[2] as int - 0x80)) * 0x40
                   + (bs[3] as int - 0x80)
    ensures bs[..4] == [(0xF0 + cp / 0x4_0000) as byte, (0x80 + (cp / 0x1000) % 0x40) as byte,
                        (0x80 + (cp / 0x40) % 0x40) as byte, (0x80 + cp % 0x40) as byte]
  {
    var x, y, z, w := bs[0] as int - 0xF0, bs[1] as int - 0x80, bs[2] as int - 0x80, bs[3] as int - 0x80;
    Bits.DivModUnique(cp, 0x40, (x * 0x40 + y) * 0x40 + z, w);
    Bits.DivModUnique(cp / 0x40, 0x40, x * 0x40 + y, z);
    Bits.DivModUnique(cp, 0x1000, x * 0x40 + y, z * 0x40 + w);
    Bits.DivModUnique(cp / 0x1000, 0x40, x, y);
    Bits.DivModUnique(cp, 0x4_0000, x, (y * 0x40 + z) * 0x40 + w);
  }

  /**
    The decoder is strict: the only bytes that decode to a string are its UTF-8 bytes,
    so a string id has exactly one key.
  */
  lemma {:induction false} Utf8Unique(bs: seq<byte>, s: string)
    requires DecodeUtf8(bs) == Some(s)
    ensures bs == Utf8(s)
    decreases |bs|
  {
    if bs != [] {
      var (c, n) := DecodeChar(bs).value;
      var rest := DecodeUtf8(bs[n..]).value;
      EncodeOfDecodeChar(bs);
      Utf8Unique(bs[n..], rest);
      assert s[0] == c && s[1..] == rest;
      assert bs == bs[..n] + bs[n..];
    }
  }

  /** Decoding and encoding are inverse on strings: the key is the one encoding of the id. */
  lemma Utf8OnlyEncoding(s: string)
    ensures forall bs :: DecodeUtf8(bs) == Some(s) <==> bs == Utf8(s)
  {
    Utf8RoundTrip(s);
    forall bs | DecodeUtf8(bs) == Some(s)
      ensures bs == Utf8(s)
    {
      Utf8Unique(bs, s);
    }
  }

  /** An overlong form is refused: 0xC1 0x81 would spell "A" in two bytes instead of one. */
  lemma OverlongRejected()
    ensures DecodeUtf8([0xC1, 0x81]) == None
  {
    assert DecodeChar([0xC1, 0x81]) == None;
  }

  /** A string of ASCII characters is keyed by its character codes, one byte each. */
  lemma {:induction false} Utf8OfAscii(s: string)
    requires forall i :: 0 <= i < |s| ==> s[i] as int < 0x80
    ensures Utf8(s) == seq(|s|, i requires 0 <= i < |s| => s[i] as int as byte)
  {
    if s != [] {
      Utf8OfAscii(s[1..]);
    }
  }

  /**
    `encode_uid`: an int becomes its 5 little-endian bytes (`to_bytes` raises
    OverflowError for a negative value or one of 2^40 or more); a string its UTF-8 bytes.
    Either way the id can be read back from the key, and a string's key is the only byte
    string that decodes to it.
  */
  function EncodeUid(uid: Uid): (r: Result<Key, Exception>)
    ensures uid.IntUid? ==> (r.Ok? <==> 0 <= uid.n < Pow256(UID_BYTES))
    ensures uid.IntUid? && r.Err? ==> r.error == OverflowError
    ensures uid.IntUid? && r.Ok? ==> |r.value| == UID_BYTES && FromLittleEndian(r.value) == uid.n
    ensures uid.StrUid? ==> r.Ok? && forall bs :: DecodeUtf8(bs) == Some(uid.s) <==> bs == r.value
  {
    match uid
    case IntUid(n) =>
      if 0 <= n < Pow256(UID_BYTES) then
        LittleEndianRoundTrip(n, UID_BYTES);
        Ok(ToLittleEndian(n, UID_BYTES))
      else Err(OverflowError)
    case StrUid(s) =>
      Utf8OnlyEncoding(s);
      Ok(Utf8(s))
  }

  /** Two ids of the same kind that encode at all share a key only if they are equal. */
  lemma EncodeUidInjective(u: Uid, v: Uid)
    requires u.IntUid? == v.IntUid?
    requires EncodeUid(u).Ok? && EncodeUid(u) == EncodeUid(v)
    ensures u == v
  {
    if u.StrUid? {
      var key := EncodeUid(u).value;
      assert DecodeUtf8(key) == Some(u.s);
      assert DecodeUtf8(key) == Some(v.s);
    }
  }

  /**
    An int id and a str id can share a key: 0x6564636261 and "abcde" are both stored
    under the bytes 0x61 0x62 0x63 0x64 0x65.
  */
  lemma IntAndStrIdsCollide()
    ensures EncodeUid(IntUid(0x65_6463_6261)) == EncodeUid(StrUid("abcde"))
  {
    var key: seq<byte> := [0x61, 0x62, 0x63, 0x64, 0x65];
    assert ToLittleEndian(0x65, 1) == [0x65];
    assert ToLittleEndian(0x6564, 2) == [0x64, 0x65];
    assert ToLittleEndian(0x65_6463, 3) == [0x63, 0x64, 0x65];
    assert ToLittleEndian(0x65_6463_6261, 5) == key;
    Utf8OfAscii("abcde");
    assert Utf8("abcde") == key;
  }

  /** What `get` returns: False for an absent key, otherwise the stored dict. */
  datatype Lookup = NotFound | Found(record: Record)

  /** `m2` is `m1` on every key except possibly `key`. */
  ghost predicate SameExcept(m1: map<Key, Record>, m2: map<Key, Record>, key: Key)
  {
    forall k :: k != key ==> (k in m1 <==> k in m2) && (k in m1 ==> m1[k] == m2[k])
  }

  class CardStore {
    var db: map<Key, Record>

    /**
      Opening the store: an existing file holds the records saved before, and a file
      created afresh holds none (`persisted == map[]`).
    */
    constructor (persisted: map<Key, Record>)
      ensures db == persisted
    {
      db := persisted;
    }

    /** `get`: the record stored under the id's key, or False when there is none. */
    function Get(uid: Uid): (r: Result<Lookup, Exception>)
      reads this
      ensures r.Err? <==> EncodeUid(uid).Err?
      ensures r.Err? ==> r.error == EncodeUid(uid).error
      ensures r.Ok? ==> (r.value.Found? <==> EncodeUid(uid).value in db)
      ensures r.Ok? && r.value.Found? ==> r.value.record == db[EncodeUid(uid).value]
    {
      match EncodeUid(uid)
      case Err(e) => Err(e)
      case Ok(key) => if key in db then Ok(Found(db[key])) else Ok(NotFound)
    }

    /**
      `save`: a value equal to False deletes the id's record (nothing happens when there
      is none), a dict replaces it, anything else raises TypeError. Only the id's own
      key is touched, and an id that cannot be encoded changes nothing.
    */
    method Save(uid: Uid, data: Json) returns (r: Result<(), Exception>)
      modifies this
      ensures EncodeUid(uid).Err? ==> r == Err(EncodeUid(uid).error) && db == old(db)
      ensures EncodeUid(uid).Ok? ==>
        var key := EncodeUid(uid).value;
        && SameExcept(old(db), db, key)
        && (EqualsFalse(data) ==> r.Ok? && key !in db && db == old(db) - {key})
        && (data.JObj? ==> r.Ok? && db == old(db)[key := data.fields])
        && (!EqualsFalse(data) && !data.JObj? ==> r == Err(TypeError) && db == old(db))
      ensures r.Ok? && EqualsFalse(data) ==> Get(uid) == Ok(NotFound)
      ensures r.Ok? && data.JObj? ==> Get(uid) == Ok(Found(data.fields))
      ensures forall other: Uid :: EncodeUid(other).Ok? && EncodeUid(other) != EncodeUid(uid) ==>
        Get(other) == old(Get(other))
    {
      var euid := EncodeUid(uid);
      if euid.Err? {
        return Err(euid.error);
      }
      var key := euid.value;
      if EqualsFalse(data) {
        if key in db {
          db := db - {key};
        }
      } else if data.JObj? {
        db := db[key := data.fields];
      } else {
        return Err(TypeError);
      }
      return Ok(());
    }
  }
}
