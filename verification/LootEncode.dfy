/**
 An encoder for loot affixes, and the round trip through the parser.
 */
module LootEncode {
  import opened Common
  import opened LootAffix
  import opened LootLayout

  function WordBytes(n: nat): (bytes: seq<Byte>)
    requires n < WORD_LIMIT
    ensures |bytes| == 4 && Word(bytes, 0) == n
  {
    var a := n / 256;
    var b := a / 256;
    var c := b / 256;
    assert n == n % 256 + 256 * a && a == a % 256 + 256 * b && b == b % 256 + 256 * c;
    [n % 256, a % 256, b % 256, c]
  }

  predicate AreWords(ws: seq<nat>) {
    forall k :: 0 <= k < |ws| ==> ws[k] < WORD_LIMIT
  }

  function Words(ws: seq<nat>): (bytes: seq<Byte>)
    requires AreWords(ws)
    ensures |bytes| == 4 * |ws|
  {
    if ws == [] then [] else WordBytes(ws[0]) + Words(ws[1..])
  }

  lemma {:induction false} WordsAt(ws: seq<nat>, k: nat, p: seq<Byte>, from: nat)
    requires AreWords(ws) && k < |ws| && from + 4 * |ws| <= |p| && p[from..from + 4 * |ws|] == Words(ws)
    ensures Word(p, from + 4 * k) == ws[k]
    decreases k
  {
    var all := p[from..from + 4 * |ws|];
    if k == 0 {
      assert all[0..4] == WordBytes(ws[0]);
      assert p[from] == all[0] && p[from + 1] == all[1] && p[from + 2] == all[2] && p[from + 3] == all[3];
    } else {
      assert p[from + 4..from + 4 * |ws|] == all[4..] == Words(ws[1..]);
      WordsAt(ws[1..], k - 1, p, from + 4);
    }
  }

  // -------------------------------------------------------------------- tail

  function Ones(n: nat): seq<nat> { seq(n, _ => 1) }

  function Spell(texts: seq<Text>): seq<Byte> {
    if texts == [] then [] else texts[0] + [0] + Spell(texts[1..])
  }

  function EncodeArray(texts: seq<Text>): seq<Byte> {
    Words(Ones(|texts|)) + Spell(texts)
  }

  function EncodeArrays(arrays: seq<seq<Text>>): seq<Byte> {
    if arrays == [] then [] else EncodeArray(arrays[0]) + EncodeArrays(arrays[1..])
  }

  predicate AreSpellable(texts: seq<Text>) {
    |texts| < WORD_LIMIT && forall k :: 0 <= k < |texts| ==> NulFree(texts[k])
  }

  lemma {:induction false} SpelledBody(p: seq<Byte>, field: nat, texts: seq<Text>)
    requires field + 4 * |texts| <= |p| && forall k :: 0 <= k < |texts| ==> Word(p, field + 4 * k) == 1
    requires forall k :: 0 <= k < |texts| ==> NulFree(texts[k])
    ensures WellSpelled(p, field, texts) && Body(p, field, texts) == Spell(texts)
    decreases |texts|
  {
    if texts != [] {
      assert Word(p, field + 4 * 0) == 1;
      forall k | 0 <= k < |texts| - 1
        ensures Word(p, field + 4 + 4 * k) == 1
      {
        assert field + 4 + 4 * k == field + 4 * (k + 1);
      }
      SpelledBody(p, field + 4, texts[1..]);
    }
  }

  lemma ArrayEncoded(p: seq<Byte>, field: nat, from: nat, texts: seq<Text>)
    requires field + 8 <= |p| && AreSpellable(texts) && Word(p, field) == 1 && Word(p, field + 4) == |texts|
    requires from + |EncodeArray(texts)| <= |p| && p[from..from + |EncodeArray(texts)|] == EncodeArray(texts)
    ensures ArrayLayout(p, field, from, from + |EncodeArray(texts)|, texts)
  {
    var n, to := |texts|, from + |EncodeArray(texts)|;
    var all := p[from..to];
    assert p[from..from + 4 * n] == all[..4 * n] == Words(Ones(n));
    forall k | 0 <= k < n
      ensures Word(p, from + 4 * k) == 1
    {
      WordsAt(Ones(n), k, p, from);
    }
    SpelledBody(p, from, texts);
    assert p[from + 4 * n..to] == all[4 * n..] == Spell(texts);
  }

  /** The header at `field` announces `texts`, present and counted. */
  predicate Announces(p: seq<Byte>, field: nat, texts: seq<Text>) {
    && field + 8 <= |p| && Word(p, field) == 1 && Word(p, field + 4) == |texts| && AreSpellable(texts)
  }

  lemma TailSplits(p: seq<Byte>, from: nat, first: seq<Byte>, rest: seq<Byte>)
    requires from <= |p| && p[from..] == first + rest
    ensures from + |first| <= |p| && p[from..from + |first|] == first && p[from + |first|..] == rest
  {
    var middle := from + |first|;
    assert p[from..middle] == p[from..][..|first|];
    assert p[middle..] == p[from..][|first|..];
  }

  /** The first array ends where the rest begins. */
  lemma FirstArrayEncoded(p: seq<Byte>, field: nat, from: nat, texts: seq<Text>, rest: seq<Byte>) returns (middle: nat)
    requires from <= |p| && p[from..] == EncodeArray(texts) + rest && Announces(p, field, texts)
    ensures from <= middle <= |p| && p[middle..] == rest && ArrayLayout(p, field, from, middle, texts)
  {
    TailSplits(p, from, EncodeArray(texts), rest);
    middle := from + |EncodeArray(texts)|;
    ArrayEncoded(p, field, from, texts);
  }

  lemma {:induction false} ArraysEncoded(p: seq<Byte>, fields: seq<nat>, from: nat, arrays: seq<seq<Text>>)
    requires |fields| == |arrays| && from <= |p| && p[from..] == EncodeArrays(arrays)
    requires forall k :: 0 <= k < |fields| ==> fields[k] + 8 <= |p| && Announces(p, fields[k], arrays[k])
    ensures ArraysLayout(p, fields, from, |p|, arrays)
    decreases |fields|
  {
    if fields != [] {
      var middle := FirstArrayEncoded(p, fields[0], from, arrays[0], EncodeArrays(arrays[1..]));
      ArraysEncoded(p, fields[1..], middle, arrays[1..]);
    }
  }

  // ------------------------------------------------------------------- names

  function HexByte(d: nat): Byte
    requires d < 16
  {
    if d < 10 then 48 + d else 87 + d
  }

  function Hex4(id: nat): Text
    requires id < 0x1_0000
  {
    [HexByte(id / 4096), HexByte(id / 256 % 16), HexByte(id / 16 % 16), HexByte(id % 16)]
  }

  lemma HexAppend(raw: Text, d: nat)
    requires d < 16 && forall k :: 0 <= k < |raw| ==> IsHex(raw[k])
    ensures HexDigit(HexByte(d)) == d
    ensures HexValue(raw + [HexByte(d)]) == HexValue(raw) * 16 + d
  {
    var more := raw + [HexByte(d)];
    assert more[..|more| - 1] == raw;
  }

  lemma Hex4Value(a: nat, b: nat, c: nat, d: nat)
    requires a < 16 && b < 16 && c < 16 && d < 16
    ensures var raw: Text := [HexByte(a), HexByte(b), HexByte(c), HexByte(d)];
            && (forall k :: 0 <= k < |raw| ==> IsHex(raw[k]))
            && HexValue(raw) == ((a * 16 + b) * 16 + c) * 16 + d
  {
    var one: Text, two: Text, three: Text := [HexByte(a)], [HexByte(a), HexByte(b)], [HexByte(a), HexByte(b), HexByte(c)];
    HexAppend([], a);
    HexAppend(one, b);
    HexAppend(two, c);
    HexAppend(three, d);
    assert [] + [HexByte(a)] == one && one + [HexByte(b)] == two && two + [HexByte(c)] == three;
    assert three + [HexByte(d)] == [HexByte(a), HexByte(b), HexByte(c), HexByte(d)];
  }

  lemma Hex4RoundTrip(id: nat)
    requires id < 0x1_0000
    ensures ParseHex16(Hex4(id)) == Some(id)
    ensures NulFree(Hex4(id))
  {
    Hex4Value(id / 4096, id / 256 % 16, id / 16 % 16, id % 16);
    Digits(id);
  }

  lemma Digits(id: nat)
    requires id < 0x1_0000
    ensures ((id / 4096 * 16 + id / 256 % 16) * 16 + id / 16 % 16) * 16 + id % 16 == id
  {
    assert id / 16 / 16 == id / 256 && id / 256 / 16 == id / 4096;
  }

  function SuffixName(id: nat, isUnique: bool): Text
    requires id < 0x1_0000
  {
    Marker(isUnique) + Hex4(id)
  }

  lemma MarkerNulFree(isUnique: bool)
    ensures NulFree(Marker(isUnique))
  {
    var name := MarkerName(isUnique);
    assert forall k :: 0 <= k < |name| ==> name[k] as int % 256 != 0;
  }

  lemma MarkedName(marker: Text, id: nat)
    requires id < 0x1_0000 && NulFree(marker)
    ensures (marker + Hex4(id))[|marker|..] == Hex4(id) && NulFree(marker + Hex4(id))
  {
    Hex4RoundTrip(id);
  }

  lemma SuffixNameRoundTrip(id: nat, isUnique: bool)
    requires 0 < id < 0x1_0000
    ensures NamesSuffix(SuffixName(id, isUnique), id, isUnique) && NulFree(SuffixName(id, isUnique))
    ensures SuffixIdentity(SuffixName(id, isUnique)) == Some((id, isUnique))
  {
    Hex4RoundTrip(id);
    MarkersDiffer(Hex4(id));
    MarkerNulFree(isUnique);
    MarkedName(Marker(isUnique), id);
    SuffixExact(SuffixName(id, isUnique), id, isUnique);
  }

  // ------------------------------------------------------------------ header

  predicate WellFormed(a: Affix) {
    && (a.kind == Prefix || a.kind == Suffix)
    && (a.kind.Prefix? ==> 0 < a.id <= 338 && !a.isUniqueFamily && !a.isBasicEligible)
    && (a.kind.Suffix? ==> 0 < a.id < 0x1_0000)
    && 0 < a.minimumLevel <= a.maximumLevel <= 1000
    && |a.arrays| == 5 && (forall k :: 0 <= k < 5 ==> AreSpellable(a.arrays[k]))
    && |a.modifier| == ATTRIBUTE_COUNT
    && (forall k :: 0 <= k < ATTRIBUTE_COUNT ==> a.modifier[k] < WORD_LIMIT && IsNumber(a.modifier[k]))
  }

  function Flags(a: Affix): nat {
    (if a.isUniqueFamily then 1 else 0) + (if a.isBasicEligible then 256 else 0)
  }

  /** The header as words: what precedes the modifiers, the modifiers, and what follows them. */
  function Before(a: Affix): (ws: seq<nat>)
    requires WellFormed(a)
    ensures |ws| == ModifierOffset(a.kind) / 4 && AreWords(ws)
  {
    var counts := [1, |a.arrays[0]|, 1, |a.arrays[1]|, 1, |a.arrays[2]|];
    if a.kind.Prefix? then [a.id] + counts + [a.minimumLevel, a.maximumLevel]
    else [0, 0, 0, 0, 1, a.minimumLevel, a.maximumLevel] + counts + [Flags(a)]
  }

  function After(a: Affix): (ws: seq<nat>)
    requires WellFormed(a)
    ensures |ws| == 16 && AreWords(ws)
  {
    [1, |a.arrays[3]|, 1, |a.arrays[4]|, 0, 0, 0, 0, 0, 0, 0, 0, 0, 0, 0, 0]
  }

  function HeaderWords(a: Affix): (ws: seq<nat>)
    requires WellFormed(a)
    ensures 4 * |ws| == HeaderSize(a.kind) && AreWords(ws)
  {
    Before(a) + a.modifier + After(a)
  }

  function Encode(a: Affix): seq<Byte>
    requires WellFormed(a)
  {
    Words(HeaderWords(a))
    + (if a.kind.Suffix? then SuffixName(a.id, a.isUniqueFamily) + [0] else [])
    + EncodeArrays(a.arrays)
  }

  /** `p` begins with the header of `a`. */
  ghost predicate HasHeader(p: seq<Byte>, a: Affix)
    requires WellFormed(a)
  {
    && HeaderSize(a.kind) <= |p|
    && forall k: nat {:trigger HeaderWords(a)[k]} :: k < |HeaderWords(a)| ==> Word(p, 4 * k) == HeaderWords(a)[k]
  }

  lemma WordsFirst(a: Affix)
    requires WellFormed(a)
    ensures HeaderSize(a.kind) <= |Encode(a)| && Encode(a)[0..4 * |HeaderWords(a)|] == Words(HeaderWords(a))
  {
  }

  lemma HeaderEncoded(a: Affix)
    requires WellFormed(a)
    ensures HasHeader(Encode(a), a)
  {
    var p, ws := Encode(a), HeaderWords(a);
    WordsFirst(a);
    forall k: nat | k < |ws|
      ensures Word(p, 4 * k) == ws[k]
    {
      WordsAt(ws, k, p, 0);
    }
  }

  lemma BeforeAt(p: seq<Byte>, a: Affix, k: nat)
    requires WellFormed(a) && HasHeader(p, a) && k < |Before(a)|
    ensures Word(p, 4 * k) == Before(a)[k]
  {
    assert HeaderWords(a)[k] == Before(a)[k];
  }

  lemma AfterAt(p: seq<Byte>, a: Affix, k: nat)
    requires WellFormed(a) && HasHeader(p, a) && k < 16
    ensures Word(p, ModifierOffset(a.kind) + 4 * ATTRIBUTE_COUNT + 4 * k) == After(a)[k]
  {
    var index := |Before(a)| + ATTRIBUTE_COUNT + k;
    assert HeaderWords(a)[index] == After(a)[k];
  }

  lemma ModifiersAt(p: seq<Byte>, a: Affix)
    requires WellFormed(a) && HasHeader(p, a)
    ensures Modifiers(p, a.kind) == a.modifier
  {
    forall i | 0 <= i < ATTRIBUTE_COUNT
      ensures Word(p, ModifierOffset(a.kind) + 4 * i) == a.modifier[i]
    {
      assert HeaderWords(a)[|Before(a)| + i] == a.modifier[i];
    }
  }

  lemma LevelsAt(p: seq<Byte>, a: Affix)
    requires WellFormed(a) && HasHeader(p, a)
    ensures Word(p, MinimumOffset(a.kind)) == a.minimumLevel && Word(p, MaximumOffset(a.kind)) == a.maximumLevel
  {
    BeforeAt(p, a, if a.kind.Suffix? then 5 else 7);
    BeforeAt(p, a, if a.kind.Suffix? then 6 else 8);
  }

  lemma TypesAnnounced(p: seq<Byte>, a: Affix, k: nat)
    requires WellFormed(a) && HasHeader(p, a) && k < 3
    ensures Announces(p, ArrayOffset(a.kind) + 8 * k, a.arrays[k])
  {
    var first := (if a.kind.Suffix? then 7 else 1) + 2 * k;
    BeforeAt(p, a, first);
    BeforeAt(p, a, first + 1);
  }

  lemma GrantsAnnounced(p: seq<Byte>, a: Affix)
    requires WellFormed(a) && HasHeader(p, a)
    ensures Announces(p, ModifierOffset(a.kind) + 4 * ATTRIBUTE_COUNT, a.arrays[3])
    ensures Announces(p, ModifierOffset(a.kind) + 4 * ATTRIBUTE_COUNT + 8, a.arrays[4])
  {
    AfterAt(p, a, 0);
    AfterAt(p, a, 1);
    AfterAt(p, a, 2);
    AfterAt(p, a, 3);
  }

  lemma AllAnnounced(p: seq<Byte>, a: Affix)
    requires WellFormed(a) && HasHeader(p, a)
    ensures forall k :: 0 <= k < 5 ==> Announces(p, Fields(a.kind)[k], a.arrays[k])
  {
    TypesAnnounced(p, a, 0);
    TypesAnnounced(p, a, 1);
    TypesAnnounced(p, a, 2);
    GrantsAnnounced(p, a);
  }

  lemma FlagsAt(p: seq<Byte>, a: Affix)
    requires WellFormed(a) && HasHeader(p, a) && a.kind.Suffix?
    ensures (p[52] != 0) == a.isUniqueFamily && (p[53] != 0) == a.isBasicEligible
  {
    BeforeAt(p, a, 13);
    assert Word(p, 52) == Flags(a);
  }

  lemma NameSpelled(p: seq<Byte>, to: nat, name: Text)
    requires 580 <= |p| && Word(p, 16) != 0 && NulFree(name)
    requires to == 580 + |name| + 1 <= |p| && p[580..to] == name + [0]
    ensures IsText(p, 16, 580, to, name)
  {
  }

  lemma SuffixLaid(p: seq<Byte>, a: Affix, to: nat, name: Text)
    requires a.kind.Suffix? && 580 <= |p| && IsText(p, 16, 580, to, name) && NamesSuffix(name, a.id, a.isUniqueFamily)
    requires (p[52] != 0) == a.isUniqueFamily && (p[53] != 0) == a.isBasicEligible
    ensures IdentityLayout(p, a, to)
  {
  }

  lemma SuffixEncoded(p: seq<Byte>, a: Affix, to: nat)
    requires WellFormed(a) && HasHeader(p, a) && a.kind.Suffix?
    requires var name := SuffixName(a.id, a.isUniqueFamily); to == 580 + |name| + 1 <= |p| && p[580..to] == name + [0]
    ensures IdentityLayout(p, a, to)
  {
    var name := SuffixName(a.id, a.isUniqueFamily);
    BeforeAt(p, a, 4);
    SuffixNameRoundTrip(a.id, a.isUniqueFamily);
    FlagsAt(p, a);
    NameSpelled(p, to, name);
    SuffixLaid(p, a, to, name);
  }

  lemma IdentityEncoded(a: Affix) returns (to: nat)
    requires WellFormed(a) && HasHeader(Encode(a), a)
    ensures HeaderSize(a.kind) <= to <= |Encode(a)| && Encode(a)[to..] == EncodeArrays(a.arrays)
    ensures IdentityLayout(Encode(a), a, to)
  {
    var p := Encode(a);
    if a.kind.Prefix? {
      BeforeAt(p, a, 0);
      to := 560;
    } else {
      var name := SuffixName(a.id, a.isUniqueFamily);
      to := 580 + |name| + 1;
      assert p[580..to] == name + [0];
      SuffixEncoded(p, a, to);
    }
  }

  lemma EncodedLayout(p: seq<Byte>, a: Affix, to: nat)
    requires WellFormed(a) && HasHeader(p, a)
    requires HeaderSize(a.kind) <= to <= |p| && p[to..] == EncodeArrays(a.arrays) && IdentityLayout(p, a, to)
    ensures Layout(p, MinimumOffset(a.kind), MaximumOffset(a.kind), a)
  {
    ModifiersAt(p, a);
    LevelsAt(p, a);
    AllAnnounced(p, a);
    ArraysEncoded(p, Fields(a.kind), to, a.arrays);
    assert TailLayout(p, a, to);
  }

  /** Every well-formed affix survives encoding and parsing. */
  lemma RoundTrip(a: Affix)
    requires WellFormed(a)
    ensures Parse(Encode(a), a.kind, MinimumOffset(a.kind), MaximumOffset(a.kind)) == Ok(a)
  {
    HeaderEncoded(a);
    var to := IdentityEncoded(a);
    EncodedLayout(Encode(a), a, to);
    ParseExact(Encode(a), MinimumOffset(a.kind), MaximumOffset(a.kind), a);
  }
}
