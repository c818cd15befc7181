/**
 The binary parser of loot prefixes and suffixes: a fixed header, then a tail of
 strings that a cursor must consume to the last byte.
 */
module LootAffix {
  import opened Common

  type Byte = b: int | 0 <= b < 256
  type Text = seq<Byte>

  const ATTRIBUTE_COUNT := 115
  const WORD_LIMIT: nat := 0x1_0000_0000

  datatype ParseError =
    | PayloadSize | ReferenceBounds | ReferenceTerminator | ArrayPresence | ArrayBounds
    | PrefixID | SuffixID | FamilyConflict | UnknownKind | Levels | TailRemaining | NotFinite

  function Word(p: seq<Byte>, o: nat): (w: nat)
    requires o + 4 <= |p|
    ensures w < WORD_LIMIT
  {
    p[o] as nat + 256 * (p[o + 1] as nat) + 65536 * (p[o + 2] as nat) + 16777216 * (p[o + 3] as nat)
  }

  // ----------------------------------------------------------------- cursor

  /** The position of the first NUL at or after `from`, or the length when there is none. */
  function FindNul(p: seq<Byte>, from: nat): (end: nat)
    requires from <= |p|
    ensures from <= end <= |p|
    ensures end < |p| ==> p[end] == 0
    ensures forall k :: from <= k < end ==> p[k] != 0
    decreases |p| - from
  {
    if from == |p| || p[from] == 0 then from else FindNul(p, from + 1)
  }

  function ReadReference(p: seq<Byte>, offset: nat, field: nat): (r: Result<(Text, nat), ParseError>)
    requires offset <= |p|
    ensures r.Ok? ==> offset <= r.value.1 <= |p|
  {
    if field + 4 > |p| then Err(ReferenceBounds)
    else if Word(p, field) == 0 then Ok(([], offset))
    else
      var end := FindNul(p, offset);
      if end == |p| then Err(ReferenceTerminator) else Ok((p[offset..end], end + 1))
  }

  /** `count` references whose presence words start at `field` and whose text starts at `offset`. */
  function ReadReferences(p: seq<Byte>, offset: nat, field: nat, count: nat): (r: Result<(seq<Text>, nat), ParseError>)
    requires offset <= |p|
    ensures r.Ok? ==> offset <= r.value.1 <= |p| && |r.value.0| == count
    decreases count
  {
    if count == 0 then Ok(([], offset))
    else match ReadReference(p, offset, field)
      case Err(e) => Err(e)
      case Ok((text, next)) =>
        match ReadReferences(p, next, field + 4, count - 1)
        case Err(e) => Err(e)
        case Ok((texts, end)) => Ok(([text] + texts, end))
  }

  function ReadStrings(p: seq<Byte>, offset: nat, field: nat): (r: Result<(seq<Text>, nat), ParseError>)
    requires offset <= |p| && field + 8 <= |p|
    ensures r.Ok? ==> offset <= r.value.1 <= |p|
  {
    var count := Word(p, field + 4);
    if Word(p, field) == 0 && count != 0 then Err(ArrayPresence)
    else if count > (|p| - offset) / 4 then Err(ArrayBounds)
    else ReadReferences(p, offset + 4 * count, offset, count)
  }

  /** Reading one more reference appends its text; one that cannot be read fails any longer reading. */
  lemma {:induction false} ReadOneMore(p: seq<Byte>, offset: nat, field: nat, k: nat, count: nat)
    requires offset <= |p| && k < count && ReadReferences(p, offset, field, k).Ok?
    ensures var (texts, end) := ReadReferences(p, offset, field, k).value;
            match ReadReference(p, end, field + 4 * k)
            case Ok((text, next)) => ReadReferences(p, offset, field, k + 1) == Ok((texts + [text], next))
            case Err(e) => ReadReferences(p, offset, field, count) == Err(e)
    decreases k
  {
    if k > 0 {
      var (first, next) := ReadReference(p, offset, field).value;
      var (rest, end) := ReadReferences(p, next, field + 4, k - 1).value;
      ReadOneMore(p, next, field + 4, k - 1, count - 1);
      assert forall text: Text :: [first] + (rest + [text]) == ([first] + rest) + [text];
    } else {
      assert forall text: Text :: [text] + [] == [] + [text];
    }
  }

  /** What a read gives is its text and the position after it, or its error. */
  predicate Gives<T(==)>(read: Result<(T, nat), ParseError>, r: Result<T, ParseError>, offset: nat) {
    match read
    case Ok((value, end)) => r == Ok(value) && offset == end
    case Err(e) => r == Err(e)
  }

  lemma NextRead(p: seq<Byte>, begin: nat, field: nat, k: nat, count: nat, before: nat, done: seq<Text>,
                 text: Result<Text, ParseError>, offset: nat)
    requires begin <= |p| && before <= |p| && k < count && ReadReferences(p, begin, field, k) == Ok((done, before))
    requires Gives(ReadReference(p, before, field + 4 * k), text, offset)
    ensures text.Ok? ==> ReadReferences(p, begin, field, k + 1) == Ok((done + [text.value], offset))
    ensures text.Err? ==> ReadReferences(p, begin, field, count) == Err(text.error)
  {
    ReadOneMore(p, begin, field, k, count);
  }

  class Cursor {
    const payload: seq<Byte>
    var offset: nat

    constructor (payload: seq<Byte>, offset: nat)
      requires offset <= |payload|
      ensures this.payload == payload && this.offset == offset && Valid()
    {
      this.payload, this.offset := payload, offset;
    }

    predicate Valid()
      reads this
    {
      offset <= |payload|
    }

    method Reference(field: int) returns (r: Result<Text, ParseError>)
      requires Valid()
      modifies this
      ensures Valid() && offset >= old(offset)
      ensures if field < 0 then r == Err(ReferenceBounds) else Gives(ReadReference(payload, old(offset), field), r, offset)
      ensures r.Err? ==> offset == old(offset)
    {
      if field < 0 || field > |payload| - 4 { return Err(ReferenceBounds); }
      if Word(payload, field) == 0 { return Ok([]); }
      var end := FindNul(payload, offset);
      if end == |payload| { return Err(ReferenceTerminator); }
      var text := payload[offset..end];
      offset := end + 1;
      r := Ok(text);
    }

    method Strings(field: nat) returns (r: Result<seq<Text>, ParseError>)
      requires Valid() && field + 8 <= |payload|
      modifies this
      ensures Valid() && offset >= old(offset)
      ensures Gives(ReadStrings(payload, old(offset), field), r, offset)
    {
      var presence, count := Word(payload, field), Word(payload, field + 4);
      if presence == 0 && count != 0 { return Err(ArrayPresence); }
      if count > (|payload| - offset) / 4 { return Err(ArrayBounds); }
      r := Collect(count);
    }

    /** Presence words at the cursor, then the texts they announce. */
    method Collect(count: nat) returns (r: Result<seq<Text>, ParseError>)
      requires Valid() && offset + 4 * count <= |payload|
      modifies this
      ensures Valid() && offset >= old(offset)
      ensures Gives(ReadReferences(payload, old(offset) + 4 * count, old(offset), count), r, offset)
    {
      var start := offset;
      offset := offset + 4 * count;
      var texts: seq<Text> := [];
      var index := 0;
      while index < count
        invariant 0 <= index <= count && Valid() && offset >= start
        invariant ReadReferences(payload, start + 4 * count, start, index) == Ok((texts, offset))
      {
        ghost var before := offset;
        var text := Reference(start + 4 * index);
        NextRead(payload, start + 4 * count, start, index, count, before, texts, text, offset);
        if text.Err? { return Err(text.error); }
        texts := texts + [text.value];
        index := index + 1;
      }
      r := Ok(texts);
    }
  }

  // ----------------------------------------------------------- suffix names

  function Ascii(s: string): Text {
    seq(|s|, i requires 0 <= i < |s| => s[i] as int % 256)
  }

  function MarkerName(isUnique: bool): string {
    if isUnique then "LootUniqueSuffixNames!0x" else "LootSuffixNames!0x"
  }

  function Marker(isUnique: bool): Text {
    Ascii(MarkerName(isUnique))
  }

  predicate IsHex(b: Byte) {
    48 <= b <= 57 || 65 <= b <= 70 || 97 <= b <= 102
  }

  function HexDigit(b: Byte): (d: nat)
    requires IsHex(b)
    ensures d < 16
  {
    if b <= 57 then b - 48 else if b <= 70 then b - 55 else b - 87
  }

  function HexValue(raw: Text): nat
    requires forall k :: 0 <= k < |raw| ==> IsHex(raw[k])
  {
    if raw == [] then 0 else HexValue(raw[..|raw| - 1]) * 16 + HexDigit(raw[|raw| - 1])
  }

  /** Hexadecimal digits, at least one, of a value that fits sixteen bits. */
  function ParseHex16(raw: Text): Option<nat> {
    if raw == [] || exists k :: 0 <= k < |raw| && !IsHex(raw[k]) then None
    else if HexValue(raw) > 0xFFFF then None
    else Some(HexValue(raw))
  }

  /** The identity a suffix name carries, and whether its family is unique. */
  function SuffixIdentity(name: Text): Option<(nat, bool)> {
    if Marker(false) <= name then MarkedIdentity(name, false)
    else if Marker(true) <= name then MarkedIdentity(name, true)
    else None
  }

  function MarkedIdentity(name: Text, isUnique: bool): Option<(nat, bool)>
    requires Marker(isUnique) <= name
  {
    match ParseHex16(name[|Marker(isUnique)|..])
    case None => None
    case Some(id) => if id == 0 then None else Some((id, isUnique))
  }

  // ----------------------------------------------------------------- affix

  datatype Kind = Prefix | Suffix | OtherKind

  /** Modifiers are kept as the bit patterns of their 32-bit floats. */
  datatype Affix = Affix(id: nat, kind: Kind, isUniqueFamily: bool, isBasicEligible: bool,
                         minimumLevel: nat, maximumLevel: nat,
                         arrays: seq<seq<Text>>, modifier: seq<nat>)

  function HeaderSize(kind: Kind): nat { if kind.Suffix? then 580 else 560 }
  function ModifierOffset(kind: Kind): nat { if kind.Suffix? then 56 else 36 }
  function ArrayOffset(kind: Kind): nat { if kind.Suffix? then 28 else 4 }

  /** Header positions of part, class and science types, modifier grants and ability improvements. */
  function Fields(kind: Kind): seq<nat> {
    var first, last := ArrayOffset(kind), ModifierOffset(kind) + 4 * ATTRIBUTE_COUNT;
    [first, first + 8, first + 16, last, last + 8]
  }

  function MinimumOffset(kind: Kind): nat { if kind.Suffix? then 20 else 28 }
  function MaximumOffset(kind: Kind): nat { if kind.Suffix? then 24 else 32 }

  predicate IsFinite(bits: nat) {
    bits / 0x80_0000 % 256 != 255
  }

  function Modifiers(p: seq<Byte>, kind: Kind): seq<nat>
    requires HeaderSize(kind) <= |p|
  {
    seq(ATTRIBUTE_COUNT, i requires 0 <= i < ATTRIBUTE_COUNT => Word(p, ModifierOffset(kind) + 4 * i))
  }

  datatype Identity = Identity(id: nat, isUniqueFamily: bool, isBasicEligible: bool, offset: nat)

  function ParseIdentity(p: seq<Byte>, kind: Kind): (r: Result<Identity, ParseError>)
    requires HeaderSize(kind) <= |p|
    ensures r.Ok? ==> HeaderSize(kind) <= r.value.offset <= |p|
  {
    match kind
    case Prefix =>
      var id := Word(p, 0);
      if id == 0 || id > 338 then Err(PrefixID) else Ok(Identity(id, false, false, HeaderSize(kind)))
    case Suffix =>
      (match ReadReference(p, HeaderSize(kind), 16)
       case Err(e) => Err(e)
       case Ok((name, offset)) =>
         match SuffixIdentity(name)
         case None => Err(SuffixID)
         case Some((id, isUnique)) =>
           if (p[52] != 0) != isUnique then Err(FamilyConflict)
           else Ok(Identity(id, isUnique, p[53] != 0, offset)))
    case OtherKind => Err(UnknownKind)
  }

  function ParseArrays(p: seq<Byte>, offset: nat, fields: seq<nat>): (r: Result<(seq<seq<Text>>, nat), ParseError>)
    requires offset <= |p| && forall k :: 0 <= k < |fields| ==> fields[k] + 8 <= |p|
    ensures r.Ok? ==> offset <= r.value.1 <= |p| && |r.value.0| == |fields|
    decreases |fields|
  {
    if fields == [] then Ok(([], offset))
    else match ReadStrings(p, offset, fields[0])
      case Err(e) => Err(e)
      case Ok((texts, next)) =>
        match ParseArrays(p, next, fields[1..])
        case Err(e) => Err(e)
        case Ok((rest, end)) => Ok(([texts] + rest, end))
  }

  function Parse(p: seq<Byte>, kind: Kind, minimumOffset: nat, maximumOffset: nat): Result<Affix, ParseError>
    requires minimumOffset + 4 <= HeaderSize(kind) && maximumOffset + 4 <= HeaderSize(kind)
  {
    if |p| < HeaderSize(kind) then Err(PayloadSize)
    else match ParseIdentity(p, kind)
      case Err(e) => Err(e)
      case Ok(identity) =>
        var minimum, maximum := Word(p, minimumOffset), Word(p, maximumOffset);
        if minimum == 0 || minimum > maximum || maximum > 1000 then Err(Levels)
        else match ParseArrays(p, identity.offset, Fields(kind))
          case Err(e) => Err(e)
          case Ok((arrays, end)) =>
            if end != |p| then Err(TailRemaining)
            else if exists i :: 0 <= i < ATTRIBUTE_COUNT && !IsFinite(Modifiers(p, kind)[i]) then Err(NotFinite)
            else Ok(Affix(identity.id, kind, identity.isUniqueFamily, identity.isBasicEligible,
                          minimum, maximum, arrays, Modifiers(p, kind)))
  }

  /** The first `k` arrays have been read into `done`, up to `offset`. */
  ghost predicate Reads(p: seq<Byte>, start: nat, fields: seq<nat>, k: nat, offset: nat, done: seq<seq<Text>>) {
    && start <= |p| && offset <= |p| && k <= |fields|
    && (forall i :: 0 <= i < |fields| ==> fields[i] + 8 <= |p|)
    && match ParseArrays(p, offset, fields[k..])
       case Ok((rest, end)) => ParseArrays(p, start, fields) == Ok((done + rest, end))
       case Err(e) => ParseArrays(p, start, fields) == Err(e)
  }

  lemma ReadsNothing(p: seq<Byte>, start: nat, fields: seq<nat>)
    requires start <= |p| && forall i :: 0 <= i < |fields| ==> fields[i] + 8 <= |p|
    ensures Reads(p, start, fields, 0, start, [])
  {
    assert fields[0..] == fields;
    assert forall rest: seq<seq<Text>> :: [] + rest == rest;
  }

  lemma ReadsNext(p: seq<Byte>, start: nat, fields: seq<nat>, k: nat, offset: nat, done: seq<seq<Text>>)
    requires Reads(p, start, fields, k, offset, done) && k < |fields|
    ensures match ReadStrings(p, offset, fields[k])
            case Ok((texts, next)) => Reads(p, start, fields, k + 1, next, done + [texts])
            case Err(e) => ParseArrays(p, start, fields) == Err(e)
  {
    assert fields[k..][1..] == fields[k + 1..];
    match ReadStrings(p, offset, fields[k])
    case Err(_) =>
    case Ok((texts, next)) =>
      forall rest: seq<seq<Text>>
        ensures done + ([texts] + rest) == (done + [texts]) + rest
      {
      }
  }

  lemma ReadsAll(p: seq<Byte>, start: nat, fields: seq<nat>, offset: nat, done: seq<seq<Text>>)
    requires Reads(p, start, fields, |fields|, offset, done)
    ensures ParseArrays(p, start, fields) == Ok((done, offset))
  {
    assert done + [] == done;
  }

  /** The part, class and science types. */
  method ReadTypes(cursor: Cursor, fields: seq<nat>) returns (r: Result<seq<seq<Text>>, ParseError>)
    requires |fields| == 5 && cursor.Valid() && Reads(cursor.payload, cursor.offset, fields, 0, cursor.offset, [])
    modifies cursor
    ensures cursor.Valid()
    ensures match r
            case Ok(arrays) => |arrays| == 3 && Reads(cursor.payload, old(cursor.offset), fields, 3, cursor.offset, arrays)
            case Err(e) => ParseArrays(cursor.payload, old(cursor.offset), fields) == Err(e)
  {
    ghost var p, start := cursor.payload, cursor.offset;
    ReadsNext(p, start, fields, 0, start, []);
    assert forall texts: seq<Text> :: [] + [texts] == [texts];
    var partTypes := cursor.Strings(fields[0]);
    if partTypes.Err? { return Err(partTypes.error); }
    ReadsNext(p, start, fields, 1, cursor.offset, [partTypes.value]);
    var classTypes := cursor.Strings(fields[1]);
    if classTypes.Err? { return Err(classTypes.error); }
    ReadsNext(p, start, fields, 2, cursor.offset, [partTypes.value] + [classTypes.value]);
    var scienceTypes := cursor.Strings(fields[2]);
    if scienceTypes.Err? { return Err(scienceTypes.error); }
    r := Ok([partTypes.value] + [classTypes.value] + [scienceTypes.value]);
  }

  /** The five array reads of the tail, in order. */
  method ReadArrays(cursor: Cursor, kind: Kind) returns (r: Result<seq<seq<Text>>, ParseError>)
    requires cursor.Valid() && HeaderSize(kind) <= |cursor.payload|
    modifies cursor
    ensures cursor.Valid()
    ensures match ParseArrays(cursor.payload, old(cursor.offset), Fields(kind))
            case Ok((arrays, end)) => r == Ok(arrays) && cursor.offset == end
            case Err(e) => r == Err(e)
  {
    ghost var p, start := cursor.payload, cursor.offset;
    var fields := Fields(kind);
    ReadsNothing(p, start, fields);
    var types := ReadTypes(cursor, fields);
    if types.Err? { return Err(types.error); }
    ReadsNext(p, start, fields, 3, cursor.offset, types.value);
    var grants := cursor.Strings(fields[3]);
    if grants.Err? { return Err(grants.error); }
    ReadsNext(p, start, fields, 4, cursor.offset, types.value + [grants.value]);
    var abilities := cursor.Strings(fields[4]);
    if abilities.Err? { return Err(abilities.error); }
    r := Ok(types.value + [grants.value] + [abilities.value]);
    ReadsAll(p, start, fields, cursor.offset, r.value);
  }

  /** The pass over the modifiers, which stops at the first that is not finite. */
  method ReadModifiers(p: seq<Byte>, kind: Kind) returns (r: Result<seq<nat>, ParseError>)
    requires HeaderSize(kind) <= |p|
    ensures r == if exists i :: 0 <= i < ATTRIBUTE_COUNT && !IsFinite(Modifiers(p, kind)[i]) then Err(NotFinite)
                 else Ok(Modifiers(p, kind))
  {
    var modifier: seq<nat> := [];
    for index := 0 to ATTRIBUTE_COUNT
      invariant modifier == Modifiers(p, kind)[..index]
      invariant forall i :: 0 <= i < index ==> IsFinite(Modifiers(p, kind)[i])
    {
      var bits := Word(p, ModifierOffset(kind) + 4 * index);
      if !IsFinite(bits) {
        assert !IsFinite(Modifiers(p, kind)[index]);
        return Err(NotFinite);
      }
      modifier := modifier + [bits];
    }
    assert Modifiers(p, kind)[..ATTRIBUTE_COUNT] == Modifiers(p, kind);
    r := Ok(modifier);
  }

  /** The imperative parser: identity, levels, arrays over one cursor, end of tail, modifiers. */
  method ParseLootAffix(p: seq<Byte>, kind: Kind, minimumOffset: nat, maximumOffset: nat)
    returns (r: Result<Affix, ParseError>)
    requires minimumOffset + 4 <= HeaderSize(kind) && maximumOffset + 4 <= HeaderSize(kind)
    ensures r == Parse(p, kind, minimumOffset, maximumOffset)
  {
    if |p| < HeaderSize(kind) { return Err(PayloadSize); }
    var identity := ParseIdentity(p, kind);
    if identity.Err? { return Err(identity.error); }
    var minimum, maximum := Word(p, minimumOffset), Word(p, maximumOffset);
    if minimum == 0 || minimum > maximum || maximum > 1000 { return Err(Levels); }
    var cursor := new Cursor(p, identity.value.offset);
    var arrays := ReadArrays(cursor, kind);
    if arrays.Err? { return Err(arrays.error); }
    if cursor.offset != |p| { return Err(TailRemaining); }
    var modifier := ReadModifiers(p, kind);
    if modifier.Err? { return Err(modifier.error); }
    r := Ok(Affix(identity.value.id, kind, identity.value.isUniqueFamily, identity.value.isBasicEligible,
                  minimum, maximum, arrays.value, modifier.value));
  }
}
