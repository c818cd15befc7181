/**
 What the affix parser accepts, said without a cursor.
 */
module LootLayout {
  import opened Common
  import opened LootAffix

  predicate NulFree(text: Text) {
    forall k :: 0 <= k < |text| ==> text[k] != 0
  }

  /** The text bytes that `texts` take when their presence words start at `field`. */
  function Body(p: seq<Byte>, field: nat, texts: seq<Text>): seq<Byte>
    requires field + 4 * |texts| <= |p|
    decreases |texts|
  {
    if texts == [] then []
    else (if Word(p, field) == 0 then [] else texts[0] + [0]) + Body(p, field + 4, texts[1..])
  }

  /** No text holds a NUL, and an absent one is empty. */
  predicate WellSpelled(p: seq<Byte>, field: nat, texts: seq<Text>)
    requires field + 4 * |texts| <= |p|
    decreases |texts|
  {
    texts == [] || (NulFree(texts[0]) && (Word(p, field) == 0 ==> texts[0] == []) && WellSpelled(p, field + 4, texts[1..]))
  }

  lemma NulFound(p: seq<Byte>, from: nat, end: nat)
    requires from <= end < |p| && p[end] == 0 && forall k :: from <= k < end ==> p[k] != 0
    ensures FindNul(p, from) == end
  {
  }

  predicate IsText(p: seq<Byte>, field: nat, from: nat, to: nat, text: Text)
    requires field + 4 <= |p|
  {
    && from <= to <= |p| && NulFree(text)
    && p[from..to] == (if Word(p, field) == 0 then [] else text + [0])
    && (Word(p, field) == 0 ==> text == [])
  }

  lemma TextIsRead(p: seq<Byte>, from: nat, field: nat, text: Text, to: nat)
    requires from <= |p| && field + 4 <= |p| && Word(p, field) != 0 && IsText(p, field, from, to, text)
    ensures ReadReference(p, from, field) == Ok((text, to))
  {
    var whole, end := p[from..to], from + |text|;
    assert whole == text + [0] && |whole| == |text| + 1;
    assert p[end] == whole[|text|] == 0;
    forall k | from <= k < end
      ensures p[k] != 0
    {
      assert p[k] == whole[k - from] == text[k - from];
    }
    NulFound(p, from, end);
    assert p[from..end] == text by {
      assert |p[from..end]| == |text|;
      forall k | 0 <= k < |text|
        ensures p[from..end][k] == text[k]
      {
        assert p[from + k] == whole[k] == text[k];
      }
    }
  }

  lemma ReadIsText(p: seq<Byte>, from: nat, field: nat, text: Text, to: nat)
    requires from <= |p| && field + 4 <= |p| && Word(p, field) != 0 && ReadReference(p, from, field) == Ok((text, to))
    ensures IsText(p, field, from, to, text)
  {
    var end := FindNul(p, from);
    assert text == p[from..end] && to == end + 1 && p[end] == 0;
    assert p[from..to] == p[from..end] + [p[end]];
  }

  lemma ReferenceExact(p: seq<Byte>, from: nat, field: nat, text: Text, to: nat)
    requires from <= |p| && field + 4 <= |p|
    ensures ReadReference(p, from, field) == Ok((text, to)) <==> IsText(p, field, from, to, text)
  {
    if Word(p, field) == 0 {
      assert p[from..from] == [];
    } else if IsText(p, field, from, to, text) {
      TextIsRead(p, from, field, text, to);
    } else if ReadReference(p, from, field) == Ok((text, to)) {
      ReadIsText(p, from, field, text, to);
    }
  }

  /** `texts` are spelled from `from` to `to`, with presence words at `field`. */
  predicate AreTexts(p: seq<Byte>, field: nat, from: nat, to: nat, texts: seq<Text>)
    requires field + 4 * |texts| <= |p|
  {
    from <= to <= |p| && WellSpelled(p, field, texts) && p[from..to] == Body(p, field, texts)
  }

  lemma TextsSplit(p: seq<Byte>, field: nat, from: nat, to: nat, texts: seq<Text>) returns (middle: nat)
    requires field + 4 * |texts| <= |p| && texts != [] && AreTexts(p, field, from, to, texts)
    ensures from <= middle <= to
    ensures IsText(p, field, from, middle, texts[0]) && AreTexts(p, field + 4, middle, to, texts[1..])
  {
    var first := if Word(p, field) == 0 then [] else texts[0] + [0];
    middle := from + |first|;
    assert p[from..middle] == p[from..to][..|first|];
    assert p[middle..to] == p[from..to][|first|..];
  }

  lemma TextsJoin(p: seq<Byte>, field: nat, from: nat, middle: nat, to: nat, texts: seq<Text>)
    requires field + 4 * |texts| <= |p| && texts != []
    requires IsText(p, field, from, middle, texts[0]) && AreTexts(p, field + 4, middle, to, texts[1..])
    ensures AreTexts(p, field, from, to, texts)
  {
    assert p[from..to] == p[from..middle] + p[middle..to];
  }

  lemma {:induction false} TextsAreRead(p: seq<Byte>, from: nat, field: nat, texts: seq<Text>, to: nat)
    requires from <= |p| && field + 4 * |texts| <= |p| && AreTexts(p, field, from, to, texts)
    ensures ReadReferences(p, from, field, |texts|) == Ok((texts, to))
    decreases |texts|
  {
    if texts != [] {
      var middle := TextsSplit(p, field, from, to, texts);
      ReferenceExact(p, from, field, texts[0], middle);
      TextsAreRead(p, middle, field + 4, texts[1..], to);
      assert [texts[0]] + texts[1..] == texts;
    }
  }

  lemma {:induction false} ReadAreTexts(p: seq<Byte>, from: nat, field: nat, texts: seq<Text>, to: nat)
    requires from <= |p| && field + 4 * |texts| <= |p|
    requires ReadReferences(p, from, field, |texts|) == Ok((texts, to))
    ensures AreTexts(p, field, from, to, texts)
    decreases |texts|
  {
    if texts != [] {
      var (text, middle) := ReadReference(p, from, field).value;
      var rest := ReadReferences(p, middle, field + 4, |texts| - 1).value.0;
      assert texts == [text] + rest && texts[0] == text && texts[1..] == rest;
      ReferenceExact(p, from, field, text, middle);
      ReadAreTexts(p, middle, field + 4, rest, to);
      TextsJoin(p, field, from, middle, to, texts);
    }
  }

  lemma ReferencesExact(p: seq<Byte>, from: nat, field: nat, texts: seq<Text>, to: nat)
    requires from <= |p| && field + 4 * |texts| <= |p|
    ensures ReadReferences(p, from, field, |texts|) == Ok((texts, to)) <==> AreTexts(p, field, from, to, texts)
  {
    if AreTexts(p, field, from, to, texts) {
      TextsAreRead(p, from, field, texts, to);
    } else if ReadReferences(p, from, field, |texts|) == Ok((texts, to)) {
      ReadAreTexts(p, from, field, texts, to);
    }
  }

  /** An array whose header is at `field` and whose presence words and text lie from `from` to `to`. */
  predicate ArrayLayout(p: seq<Byte>, field: nat, from: nat, to: nat, texts: seq<Text>)
    requires field + 8 <= |p|
  {
    && Word(p, field + 4) == |texts| && (Word(p, field) == 0 ==> texts == [])
    && from + 4 * |texts| <= |p| && AreTexts(p, from, from + 4 * |texts|, to, texts)
  }

  lemma StringsExact(p: seq<Byte>, from: nat, field: nat, texts: seq<Text>, to: nat)
    requires from <= |p| && field + 8 <= |p|
    ensures ReadStrings(p, from, field) == Ok((texts, to)) <==> ArrayLayout(p, field, from, to, texts)
  {
    if from + 4 * |texts| <= |p| {
      ReferencesExact(p, from + 4 * |texts|, from, texts, to);
    }
  }

  /** The arrays follow one another, each ending where the next begins. */
  ghost predicate ArraysLayout(p: seq<Byte>, fields: seq<nat>, from: nat, to: nat, arrays: seq<seq<Text>>)
    requires forall k :: 0 <= k < |fields| ==> fields[k] + 8 <= |p|
    decreases |fields|
  {
    if fields == [] then arrays == [] && from == to
    else
      && arrays != []
      && exists middle: nat :: from <= middle <= |p| && ArrayLayout(p, fields[0], from, middle, arrays[0])
                               && ArraysLayout(p, fields[1..], middle, to, arrays[1..])
  }

  lemma ParsesNext(p: seq<Byte>, from: nat, fields: seq<nat>, texts: seq<Text>, middle: nat, rest: seq<seq<Text>>, to: nat)
    requires from <= |p| && middle <= |p| && fields != [] && forall k :: 0 <= k < |fields| ==> fields[k] + 8 <= |p|
    requires ReadStrings(p, from, fields[0]) == Ok((texts, middle)) && ParseArrays(p, middle, fields[1..]) == Ok((rest, to))
    ensures ParseArrays(p, from, fields) == Ok(([texts] + rest, to))
  {
  }

  lemma {:induction false} ArraysAreRead(p: seq<Byte>, from: nat, fields: seq<nat>, arrays: seq<seq<Text>>, to: nat)
    requires from <= |p| && forall k :: 0 <= k < |fields| ==> fields[k] + 8 <= |p|
    requires ArraysLayout(p, fields, from, to, arrays)
    ensures ParseArrays(p, from, fields) == Ok((arrays, to))
    decreases |fields|
  {
    if fields != [] {
      var middle: nat :| from <= middle <= |p| && ArrayLayout(p, fields[0], from, middle, arrays[0])
                         && ArraysLayout(p, fields[1..], middle, to, arrays[1..]);
      StringsExact(p, from, fields[0], arrays[0], middle);
      ArraysAreRead(p, middle, fields[1..], arrays[1..], to);
      ParsesNext(p, from, fields, arrays[0], middle, arrays[1..], to);
      assert [arrays[0]] + arrays[1..] == arrays;
    }
  }

  lemma {:induction false} ReadAreArrays(p: seq<Byte>, from: nat, fields: seq<nat>, arrays: seq<seq<Text>>, to: nat)
    requires from <= |p| && forall k :: 0 <= k < |fields| ==> fields[k] + 8 <= |p|
    requires ParseArrays(p, from, fields) == Ok((arrays, to))
    ensures ArraysLayout(p, fields, from, to, arrays)
    decreases |fields|
  {
    if fields != [] {
      var (texts, middle) := ReadStrings(p, from, fields[0]).value;
      StringsExact(p, from, fields[0], texts, middle);
      var rest := ParseArrays(p, middle, fields[1..]).value.0;
      assert arrays[0] == texts && arrays[1..] == rest;
      ReadAreArrays(p, middle, fields[1..], rest, to);
    }
  }

  lemma ArraysExact(p: seq<Byte>, from: nat, fields: seq<nat>, arrays: seq<seq<Text>>, to: nat)
    requires from <= |p| && forall k :: 0 <= k < |fields| ==> fields[k] + 8 <= |p|
    ensures ParseArrays(p, from, fields) == Ok((arrays, to)) <==> ArraysLayout(p, fields, from, to, arrays)
  {
    if ArraysLayout(p, fields, from, to, arrays) {
      ArraysAreRead(p, from, fields, arrays, to);
    } else if ParseArrays(p, from, fields) == Ok((arrays, to)) {
      ReadAreArrays(p, from, fields, arrays, to);
    }
  }

  // ------------------------------------------------------------ suffix names

  /** Names that differ in a letter are not prefixes of one another. */
  lemma NotPrefix(s: string, t: string, k: nat, rest: Text)
    requires k < |s| && k < |t| && s[k] as int % 256 != t[k] as int % 256
    ensures !(Ascii(s) <= Ascii(t) + rest)
  {
    assert (Ascii(t) + rest)[k] == Ascii(t)[k];
  }

  lemma MarkersDiffer(rest: Text)
    ensures !(Marker(false) <= Marker(true) + rest)
  {
    NotPrefix(MarkerName(false), MarkerName(true), 4, rest);
  }

  /** The byte is a hexadecimal digit, small or capital, that stands for `d`. */
  predicate StandsFor(b: Byte, d: nat) {
    d < 16 && (b == "0123456789abcdef"[d] as int || b == "0123456789ABCDEF"[d] as int)
  }

  lemma DigitExact(b: Byte)
    ensures IsHex(b) ==> StandsFor(b, HexDigit(b))
    ensures forall d: nat :: StandsFor(b, d) ==> IsHex(b) && d == HexDigit(b)
  {
  }

  /** The digits, if there are any, stand for `n` in base sixteen. */
  predicate IsNumeral(digits: Text, n: nat)
    decreases |digits|
  {
    if digits == [] then n == 0
    else StandsFor(digits[|digits| - 1], n % 16) && IsNumeral(digits[..|digits| - 1], n / 16)
  }

  predicate AreHex(digits: Text) {
    forall k :: 0 <= k < |digits| ==> IsHex(digits[k])
  }

  lemma {:induction false} NumeralExact(digits: Text, n: nat)
    ensures IsNumeral(digits, n) <==> AreHex(digits) && HexValue(digits) == n
    decreases |digits|
  {
    if digits != [] {
      var most, last := digits[..|digits| - 1], digits[|digits| - 1];
      DigitExact(last);
      NumeralExact(most, n / 16);
      assert AreHex(digits) <==> AreHex(most) && IsHex(last);
    }
  }

  /** The bytes are these characters. */
  predicate IsSpelled(bytes: Text, characters: string) {
    |bytes| == |characters| && forall k :: 0 <= k < |bytes| ==> bytes[k] == characters[k] as int
  }

  /** The name of a suffix: the word of its family, and its identity in hexadecimal. */
  ghost predicate NamesSuffix(name: Text, id: nat, isUnique: bool) {
    exists head: Text, digits: Text ::
      && name == head + digits && IsSpelled(head, if isUnique then "LootUniqueSuffixNames!0x" else "LootSuffixNames!0x")
      && digits != [] && IsNumeral(digits, id) && 0 < id < 0x1_0000
  }

  lemma MarkerSpelled(head: Text, isUnique: bool)
    ensures IsSpelled(head, if isUnique then "LootUniqueSuffixNames!0x" else "LootSuffixNames!0x") <==> head == Marker(isUnique)
  {
    var word, marker := if isUnique then "LootUniqueSuffixNames!0x" else "LootSuffixNames!0x", Marker(isUnique);
    assert forall k :: 0 <= k < |word| ==> word[k] as int % 256 == word[k] as int;
    assert forall k :: 0 <= k < |word| ==> marker[k] == word[k] as int;
    if IsSpelled(head, word) {
      assert forall k :: 0 <= k < |head| ==> head[k] == marker[k];
    }
  }

  lemma MarkedExact(name: Text, id: nat, isUnique: bool)
    requires Marker(isUnique) <= name
    ensures MarkedIdentity(name, isUnique) == Some((id, isUnique)) <==>
            var digits := name[|Marker(isUnique)|..]; digits != [] && IsNumeral(digits, id) && 0 < id < 0x1_0000
  {
    NumeralExact(name[|Marker(isUnique)|..], id);
  }

  /** A name is recognised exactly when it is one. */
  lemma SuffixExact(name: Text, id: nat, isUnique: bool)
    ensures SuffixIdentity(name) == Some((id, isUnique)) <==> NamesSuffix(name, id, isUnique)
  {
    var marker := Marker(isUnique);
    if marker <= name {
      MarkerSpelled(marker, isUnique);
      assert name == marker + name[|marker|..];
      MarkersDiffer(name[|marker|..]);
      MarkedExact(name, id, isUnique);
    }
    if NamesSuffix(name, id, isUnique) {
      var head: Text, digits: Text :|
        && name == head + digits && IsSpelled(head, if isUnique then "LootUniqueSuffixNames!0x" else "LootSuffixNames!0x")
        && digits != [] && IsNumeral(digits, id) && 0 < id < 0x1_0000;
      MarkerSpelled(head, isUnique);
      assert name[|marker|..] == digits && marker <= name;
    }
  }

  // ------------------------------------------------------------------ the whole

  /** The bits of a 32-bit float that is a number: their exponent is not all ones. */
  predicate IsNumber(bits: nat) {
    bits % 0x8000_0000 < 0x7F80_0000
  }

  lemma NumberExact(bits: nat)
    requires bits < WORD_LIMIT
    ensures IsFinite(bits) <==> IsNumber(bits)
  {
    var mantissa, rest := bits % 0x80_0000, bits / 0x80_0000;
    assert bits == rest * 0x80_0000 + mantissa;
    assert rest == rest / 256 * 256 + rest % 256;
    assert bits % 0x8000_0000 == rest % 256 * 0x80_0000 + mantissa;
  }

  /** Where the headers of the five arrays are. */
  function ArrayHeaders(kind: Kind): (fields: seq<nat>)
    ensures |fields| == 5 && forall k :: 0 <= k < 5 ==> fields[k] + 8 <= HeaderLength(kind)
  {
    if kind.Suffix? then [28, 36, 44, 516, 524] else [4, 12, 20, 496, 504]
  }

  function HeaderLength(kind: Kind): nat {
    if kind.Suffix? then 580 else 560
  }

  /** The header's identity, with the suffix name (if any) spelled up to `to`. */
  ghost predicate IdentityLayout(p: seq<Byte>, a: Affix, to: nat)
    requires HeaderLength(a.kind) <= |p|
  {
    match a.kind
    case Prefix => a.id == Word(p, 0) && 0 < a.id <= 338 && !a.isUniqueFamily && !a.isBasicEligible && to == 560
    case Suffix =>
      && (exists name: Text :: IsText(p, 16, 580, to, name) && NamesSuffix(name, a.id, a.isUniqueFamily))
      && (p[52] != 0) == a.isUniqueFamily && (p[53] != 0) == a.isBasicEligible
    case OtherKind => false
  }

  /** The name that is read decides the identity of a suffix. */
  lemma SuffixRead(p: seq<Byte>, a: Affix, to: nat, name: Text)
    requires a.kind.Suffix? && 580 <= |p| && ReadReference(p, 580, 16) == Ok((name, to))
    ensures ParseIdentity(p, a.kind) == Ok(Identity(a.id, a.isUniqueFamily, a.isBasicEligible, to)) <==>
            && SuffixIdentity(name) == Some((a.id, a.isUniqueFamily))
            && (p[52] != 0) == a.isUniqueFamily && (p[53] != 0) == a.isBasicEligible
  {
  }

  lemma IdentityIsRead(p: seq<Byte>, a: Affix, to: nat)
    requires HeaderSize(a.kind) <= |p| && IdentityLayout(p, a, to)
    ensures ParseIdentity(p, a.kind) == Ok(Identity(a.id, a.isUniqueFamily, a.isBasicEligible, to))
  {
    if a.kind.Suffix? {
      var name: Text :| IsText(p, 16, 580, to, name) && NamesSuffix(name, a.id, a.isUniqueFamily);
      SuffixExact(name, a.id, a.isUniqueFamily);
      ReferenceExact(p, 580, 16, name, to);
      SuffixRead(p, a, to, name);
    }
  }

  lemma ReadIsIdentity(p: seq<Byte>, a: Affix, to: nat)
    requires HeaderSize(a.kind) <= |p|
    requires ParseIdentity(p, a.kind) == Ok(Identity(a.id, a.isUniqueFamily, a.isBasicEligible, to))
    ensures IdentityLayout(p, a, to)
  {
    if a.kind.Suffix? {
      var (name, end) := ReadReference(p, 580, 16).value;
      SuffixRead(p, a, end, name);
      ReferenceExact(p, 580, 16, name, end);
      SuffixExact(name, a.id, a.isUniqueFamily);
    }
  }

  lemma IdentityExact(p: seq<Byte>, a: Affix, to: nat)
    requires HeaderSize(a.kind) <= |p|
    ensures ParseIdentity(p, a.kind) == Ok(Identity(a.id, a.isUniqueFamily, a.isBasicEligible, to)) <==> IdentityLayout(p, a, to)
  {
    if IdentityLayout(p, a, to) {
      IdentityIsRead(p, a, to);
    } else if ParseIdentity(p, a.kind) == Ok(Identity(a.id, a.isUniqueFamily, a.isBasicEligible, to)) {
      ReadIsIdentity(p, a, to);
    }
  }

  /** The header's levels and its 115 modifiers. */
  ghost predicate HeaderLayout(p: seq<Byte>, minimumOffset: nat, maximumOffset: nat, a: Affix)
    requires minimumOffset + 4 <= HeaderSize(a.kind) && maximumOffset + 4 <= HeaderSize(a.kind)
  {
    && HeaderLength(a.kind) <= |p|
    && a.minimumLevel == Word(p, minimumOffset) && a.maximumLevel == Word(p, maximumOffset)
    && 0 < a.minimumLevel <= a.maximumLevel <= 1000
    && |a.modifier| == 115
    && forall i :: 0 <= i < 115 ==> a.modifier[i] == Word(p, (if a.kind.Suffix? then 56 else 36) + 4 * i) && IsNumber(a.modifier[i])
  }

  /** Levels and modifiers as the parser reads them. */
  predicate ReadsHeader(p: seq<Byte>, minimumOffset: nat, maximumOffset: nat, a: Affix)
    requires minimumOffset + 4 <= HeaderSize(a.kind) && maximumOffset + 4 <= HeaderSize(a.kind)
  {
    && HeaderSize(a.kind) <= |p|
    && a.minimumLevel == Word(p, minimumOffset) && a.maximumLevel == Word(p, maximumOffset)
    && 0 < a.minimumLevel <= a.maximumLevel <= 1000
    && a.modifier == Modifiers(p, a.kind) && forall i :: 0 <= i < ATTRIBUTE_COUNT ==> IsFinite(Modifiers(p, a.kind)[i])
  }

  lemma HeaderExact(p: seq<Byte>, minimumOffset: nat, maximumOffset: nat, a: Affix)
    requires minimumOffset + 4 <= HeaderSize(a.kind) && maximumOffset + 4 <= HeaderSize(a.kind)
    ensures HeaderLayout(p, minimumOffset, maximumOffset, a) <==> ReadsHeader(p, minimumOffset, maximumOffset, a)
  {
    if HeaderSize(a.kind) <= |p| {
      forall i | 0 <= i < ATTRIBUTE_COUNT
        ensures IsFinite(Modifiers(p, a.kind)[i]) <==> IsNumber(Modifiers(p, a.kind)[i])
        ensures Modifiers(p, a.kind)[i] == Word(p, (if a.kind.Suffix? then 56 else 36) + 4 * i)
      {
        NumberExact(Modifiers(p, a.kind)[i]);
      }
      if HeaderLayout(p, minimumOffset, maximumOffset, a) {
        assert a.modifier == Modifiers(p, a.kind);
      }
    }
  }

  /** The identity ends at `to`, and the arrays fill what follows to the last byte. */
  ghost predicate TailLayout(p: seq<Byte>, a: Affix, to: nat) {
    && HeaderLength(a.kind) <= to <= |p| && IdentityLayout(p, a, to)
    && ArraysLayout(p, ArrayHeaders(a.kind), to, |p|, a.arrays)
  }

  /** `p` lays out `a`: header, then a tail that is used up exactly. */
  ghost predicate Layout(p: seq<Byte>, minimumOffset: nat, maximumOffset: nat, a: Affix)
    requires minimumOffset + 4 <= HeaderSize(a.kind) && maximumOffset + 4 <= HeaderSize(a.kind)
  {
    HeaderLayout(p, minimumOffset, maximumOffset, a) && exists to: nat :: TailLayout(p, a, to)
  }

  /** Identity and arrays as the parser reads them. */
  predicate ReadsTail(p: seq<Byte>, a: Affix, to: nat) {
    && HeaderSize(a.kind) <= to <= |p|
    && ParseIdentity(p, a.kind) == Ok(Identity(a.id, a.isUniqueFamily, a.isBasicEligible, to))
    && ParseArrays(p, to, Fields(a.kind)) == Ok((a.arrays, |p|))
  }

  lemma TailExact(p: seq<Byte>, a: Affix, to: nat)
    ensures TailLayout(p, a, to) <==> ReadsTail(p, a, to)
  {
    if HeaderSize(a.kind) <= to <= |p| {
      IdentityExact(p, a, to);
      ArraysExact(p, to, Fields(a.kind), a.arrays, |p|);
    }
  }

  lemma ParsesAs(p: seq<Byte>, minimumOffset: nat, maximumOffset: nat, a: Affix, to: nat)
    requires minimumOffset + 4 <= HeaderSize(a.kind) && maximumOffset + 4 <= HeaderSize(a.kind)
    requires ReadsHeader(p, minimumOffset, maximumOffset, a) && ReadsTail(p, a, to)
    ensures Parse(p, a.kind, minimumOffset, maximumOffset) == Ok(a)
  {
  }

  lemma ParsedAs(p: seq<Byte>, minimumOffset: nat, maximumOffset: nat, a: Affix) returns (to: nat)
    requires minimumOffset + 4 <= HeaderSize(a.kind) && maximumOffset + 4 <= HeaderSize(a.kind)
    requires Parse(p, a.kind, minimumOffset, maximumOffset) == Ok(a)
    ensures ReadsHeader(p, minimumOffset, maximumOffset, a) && ReadsTail(p, a, to)
  {
    to := ParseIdentity(p, a.kind).value.offset;
  }

  lemma LayoutIsParsed(p: seq<Byte>, minimumOffset: nat, maximumOffset: nat, a: Affix)
    requires minimumOffset + 4 <= HeaderSize(a.kind) && maximumOffset + 4 <= HeaderSize(a.kind)
    requires Layout(p, minimumOffset, maximumOffset, a)
    ensures Parse(p, a.kind, minimumOffset, maximumOffset) == Ok(a)
  {
    var to: nat :| TailLayout(p, a, to);
    TailExact(p, a, to);
    HeaderExact(p, minimumOffset, maximumOffset, a);
    ParsesAs(p, minimumOffset, maximumOffset, a, to);
  }

  lemma ParsedIsLayout(p: seq<Byte>, minimumOffset: nat, maximumOffset: nat, a: Affix)
    requires minimumOffset + 4 <= HeaderSize(a.kind) && maximumOffset + 4 <= HeaderSize(a.kind)
    requires Parse(p, a.kind, minimumOffset, maximumOffset) == Ok(a)
    ensures Layout(p, minimumOffset, maximumOffset, a)
  {
    var to := ParsedAs(p, minimumOffset, maximumOffset, a);
    TailExact(p, a, to);
    HeaderExact(p, minimumOffset, maximumOffset, a);
  }

  /** The parser accepts `p` as `a` exactly when `p` lays out `a`, to the last byte. */
  lemma ParseExact(p: seq<Byte>, minimumOffset: nat, maximumOffset: nat, a: Affix)
    requires minimumOffset + 4 <= HeaderSize(a.kind) && maximumOffset + 4 <= HeaderSize(a.kind)
    ensures Parse(p, a.kind, minimumOffset, maximumOffset) == Ok(a) <==> Layout(p, minimumOffset, maximumOffset, a)
  {
    if Layout(p, minimumOffset, maximumOffset, a) {
      LayoutIsParsed(p, minimumOffset, maximumOffset, a);
    } else if Parse(p, a.kind, minimumOffset, maximumOffset) == Ok(a) {
      ParsedIsLayout(p, minimumOffset, maximumOffset, a);
    }
  }

  // ----------------------------------------------------------------- refusals

  /** The suffix name is there, and recognised as that. */
  ghost predicate IsNamed(p: seq<Byte>, id: nat, isUnique: bool)
    requires 580 <= |p|
  {
    exists name: Text, to: nat :: IsText(p, 16, 580, to, name) && NamesSuffix(name, id, isUnique)
  }

  ghost predicate HasName(p: seq<Byte>)
    requires 580 <= |p|
  {
    exists name: Text, to: nat :: IsText(p, 16, 580, to, name)
  }

  lemma NameExact(p: seq<Byte>, name: Text, to: nat)
    requires 580 <= |p|
    ensures IsText(p, 16, 580, to, name) <==> ReadReference(p, 580, 16) == Ok((name, to))
  {
    ReferenceExact(p, 580, 16, name, to);
  }

  lemma NamedExact(p: seq<Byte>, id: nat, isUnique: bool)
    requires 580 <= |p|
    ensures HasName(p) <==> ReadReference(p, 580, 16).Ok?
    ensures IsNamed(p, id, isUnique) <==>
            ReadReference(p, 580, 16).Ok? && SuffixIdentity(ReadReference(p, 580, 16).value.0) == Some((id, isUnique))
  {
    if ReadReference(p, 580, 16).Ok? {
      var (name, to) := ReadReference(p, 580, 16).value;
      NameExact(p, name, to);
      SuffixExact(name, id, isUnique);
    }
    if HasName(p) {
      var name: Text, to: nat :| IsText(p, 16, 580, to, name);
      NameExact(p, name, to);
    }
    if IsNamed(p, id, isUnique) {
      var name: Text, to: nat :| IsText(p, 16, 580, to, name) && NamesSuffix(name, id, isUnique);
      NameExact(p, name, to);
    }
  }

  /** What is wrong with the identity of a payload that is long enough, if anything is. */
  lemma IdentityErrors(p: seq<Byte>, kind: Kind)
    requires HeaderLength(kind) <= |p|
    ensures var r := ParseIdentity(p, kind);
            && (r == Err(UnknownKind) <==> kind.OtherKind?)
            && (r == Err(PrefixID) <==> kind.Prefix? && !(0 < Word(p, 0) <= 338))
            && (r == Err(SuffixID) <==> kind.Suffix? && HasName(p) && forall id: nat, isUnique :: !IsNamed(p, id, isUnique))
            && (r == Err(FamilyConflict) <==> kind.Suffix? && exists id: nat, isUnique :: IsNamed(p, id, isUnique) && (p[52] != 0) != isUnique)
            && (r.Ok? <==> (kind.Prefix? && 0 < Word(p, 0) <= 338)
                           || (kind.Suffix? && exists id: nat, isUnique :: IsNamed(p, id, isUnique) && (p[52] != 0) == isUnique))
  {
    if kind.Suffix? {
      forall id: nat, isUnique
        ensures HasName(p) <==> ReadReference(p, 580, 16).Ok?
        ensures IsNamed(p, id, isUnique) <==>
                ReadReference(p, 580, 16).Ok? && SuffixIdentity(ReadReference(p, 580, 16).value.0) == Some((id, isUnique))
      {
        NamedExact(p, id, isUnique);
      }
      NamedExact(p, 0, false);
    }
  }

  /** The arrays lie from `from` to `end`. */
  ghost predicate HasArrays(p: seq<Byte>, fields: seq<nat>, from: nat, end: nat)
    requires forall k :: 0 <= k < |fields| ==> fields[k] + 8 <= |p|
  {
    exists arrays: seq<seq<Text>> :: ArraysLayout(p, fields, from, end, arrays)
  }

  lemma HasArraysExact(p: seq<Byte>, fields: seq<nat>, from: nat, end: nat)
    requires from <= |p| && forall k :: 0 <= k < |fields| ==> fields[k] + 8 <= |p|
    ensures HasArrays(p, fields, from, end) <==> ParseArrays(p, from, fields).Ok? && ParseArrays(p, from, fields).value.1 == end
  {
    var r := ParseArrays(p, from, fields);
    if r.Ok? {
      ArraysExact(p, from, fields, r.value.0, r.value.1);
    }
    if HasArrays(p, fields, from, end) {
      var arrays: seq<seq<Text>> :| ArraysLayout(p, fields, from, end, arrays);
      ArraysExact(p, from, fields, arrays, end);
    }
  }

  lemma HeadersAre(kind: Kind)
    ensures Fields(kind) == ArrayHeaders(kind) && HeaderSize(kind) == HeaderLength(kind)
  {
  }

  predicate AreLevels(minimum: nat, maximum: nat) {
    1 <= minimum <= maximum <= 1000
  }

  predicate IsNumberAt(p: seq<Byte>, kind: Kind, i: nat)
    requires HeaderLength(kind) <= |p| && i < 115
  {
    IsNumber(Word(p, (if kind.Suffix? then 56 else 36) + 4 * i))
  }

  predicate AllNumbers(p: seq<Byte>, kind: Kind)
    requires HeaderLength(kind) <= |p|
  {
    forall i: nat :: i < 115 ==> IsNumberAt(p, kind, i)
  }

  lemma NumbersExact(p: seq<Byte>, kind: Kind)
    requires HeaderLength(kind) <= |p|
    ensures AllNumbers(p, kind) <==> forall i :: 0 <= i < ATTRIBUTE_COUNT ==> IsFinite(Modifiers(p, kind)[i])
  {
    forall i: nat | i < 115
      ensures IsNumberAt(p, kind, i) <==> IsFinite(Modifiers(p, kind)[i])
    {
      NumberExact(Modifiers(p, kind)[i]);
    }
  }

  /** Once identity and levels are in order: the arrays, what is left after them, and the modifiers. */
  lemma TailErrors(p: seq<Byte>, kind: Kind, minimumOffset: nat, maximumOffset: nat)
    requires minimumOffset + 4 <= HeaderSize(kind) && maximumOffset + 4 <= HeaderSize(kind)
    requires HeaderSize(kind) <= |p| && ParseIdentity(p, kind).Ok?
    requires AreLevels(Word(p, minimumOffset), Word(p, maximumOffset))
    ensures var r, arrays := Parse(p, kind, minimumOffset, maximumOffset), ParseArrays(p, ParseIdentity(p, kind).value.offset, Fields(kind));
            if arrays.Err? then r == Err(arrays.error)
            else if arrays.value.1 != |p| then r == Err(TailRemaining)
            else if exists i :: 0 <= i < ATTRIBUTE_COUNT && !IsFinite(Modifiers(p, kind)[i]) then r == Err(NotFinite)
            else r.Ok?
  {
  }

  lemma LevelErrors(p: seq<Byte>, kind: Kind, minimumOffset: nat, maximumOffset: nat)
    requires minimumOffset + 4 <= HeaderSize(kind) && maximumOffset + 4 <= HeaderSize(kind)
    ensures Parse(p, kind, minimumOffset, maximumOffset) == Err(PayloadSize) <==> |p| < HeaderSize(kind)
    ensures HeaderSize(kind) <= |p| && ParseIdentity(p, kind).Err? ==>
              Parse(p, kind, minimumOffset, maximumOffset) == Err(ParseIdentity(p, kind).error)
    ensures HeaderSize(kind) <= |p| && ParseIdentity(p, kind).Ok? && !AreLevels(Word(p, minimumOffset), Word(p, maximumOffset)) ==>
              Parse(p, kind, minimumOffset, maximumOffset) == Err(Levels)
  {
    if HeaderSize(kind) <= |p| && ParseIdentity(p, kind).Err? {
      IdentityNeedsHeader(p, kind);
    } else if HeaderSize(kind) <= |p| && AreLevels(Word(p, minimumOffset), Word(p, maximumOffset)) {
      TailErrors(p, kind, minimumOffset, maximumOffset);
      ArrayErrors(p, ParseIdentity(p, kind).value.offset, Fields(kind));
    }
  }

  lemma IdentityNeedsHeader(p: seq<Byte>, kind: Kind)
    requires HeaderSize(kind) <= |p| && ParseIdentity(p, kind).Err?
    ensures ParseIdentity(p, kind).error != PayloadSize
  {
  }

  /** The verdict on a payload whose identity is in order and ends at `from`. */
  ghost predicate IsVerdict(p: seq<Byte>, kind: Kind, areLevels: bool, from: nat, r: Result<Affix, ParseError>)
    requires HeaderLength(kind) <= |p|
  {
    if !areLevels then r == Err(Levels)
    else if forall end: nat :: !HasArrays(p, ArrayHeaders(kind), from, end) then r.Err? && IsTailError(r.error)
    else if !HasArrays(p, ArrayHeaders(kind), from, |p|) then r == Err(TailRemaining)
    else if !AllNumbers(p, kind) then r == Err(NotFinite)
    else r.Ok?
  }

  /**
   Which refusal a payload meets: for its length, then its identity, its levels, its
   arrays, what is left after them, and last its modifiers.
   */
  lemma ErrorsExact(p: seq<Byte>, kind: Kind, minimumOffset: nat, maximumOffset: nat)
    requires minimumOffset + 4 <= HeaderSize(kind) && maximumOffset + 4 <= HeaderSize(kind)
    ensures Parse(p, kind, minimumOffset, maximumOffset) == Err(PayloadSize) <==> |p| < HeaderLength(kind)
    ensures HeaderLength(kind) <= |p| && ParseIdentity(p, kind).Err? ==>
              Parse(p, kind, minimumOffset, maximumOffset) == Err(ParseIdentity(p, kind).error)
    ensures HeaderLength(kind) <= |p| && ParseIdentity(p, kind).Ok? ==>
              IsVerdict(p, kind, AreLevels(Word(p, minimumOffset), Word(p, maximumOffset)), ParseIdentity(p, kind).value.offset,
                        Parse(p, kind, minimumOffset, maximumOffset))
  {
    LevelErrors(p, kind, minimumOffset, maximumOffset);
    HeadersAre(kind);
    if HeaderLength(kind) <= |p| && ParseIdentity(p, kind).Ok? && AreLevels(Word(p, minimumOffset), Word(p, maximumOffset)) {
      var from := ParseIdentity(p, kind).value.offset;
      TailErrors(p, kind, minimumOffset, maximumOffset);
      NumbersExact(p, kind);
      ArrayErrors(p, from, Fields(kind));
      forall end: nat
        ensures HasArrays(p, Fields(kind), from, end) <==>
                ParseArrays(p, from, Fields(kind)).Ok? && ParseArrays(p, from, Fields(kind)).value.1 == end
      {
        HasArraysExact(p, Fields(kind), from, end);
      }
      if ParseArrays(p, from, Fields(kind)).Ok? {
        assert HasArrays(p, Fields(kind), from, ParseArrays(p, from, Fields(kind)).value.1);
      }
    }
  }

  /** Why a single text or an array cannot be read. */
  lemma ReadErrors(p: seq<Byte>, offset: nat, field: nat)
    requires offset <= |p|
    ensures var r := ReadReference(p, offset, field);
            && (r == Err(ReferenceBounds) <==> field + 4 > |p|)
            && (r == Err(ReferenceTerminator) <==>
                  field + 4 <= |p| && Word(p, field) != 0 && forall k :: offset <= k < |p| ==> p[k] != 0)
            && (r.Err? ==> r.error == ReferenceBounds || r.error == ReferenceTerminator)
    ensures field + 8 <= |p| ==>
              var r, count := ReadStrings(p, offset, field), Word(p, field + 4);
              && (r == Err(ArrayPresence) <==> Word(p, field) == 0 && count > 0)
              && (r == Err(ArrayBounds) <==> !(Word(p, field) == 0 && count > 0) && offset + 4 * count > |p|)
  {
    if field + 8 <= |p| && offset + 4 * Word(p, field + 4) <= |p| {
      ReadErrorsIn(p, offset + 4 * Word(p, field + 4), offset, Word(p, field + 4));
    }
  }

  lemma {:induction false} ReadErrorsIn(p: seq<Byte>, offset: nat, field: nat, count: nat)
    requires offset <= |p|
    ensures var r := ReadReferences(p, offset, field, count); r.Err? ==> r.error == ReferenceBounds || r.error == ReferenceTerminator
    decreases count
  {
    if count > 0 && ReadReference(p, offset, field).Ok? {
      ReadErrorsIn(p, ReadReference(p, offset, field).value.1, field + 4, count - 1);
    }
  }

  predicate IsTailError(e: ParseError) {
    e == ReferenceBounds || e == ReferenceTerminator || e == ArrayPresence || e == ArrayBounds
  }

  lemma {:induction false} ArrayErrors(p: seq<Byte>, offset: nat, fields: seq<nat>)
    requires offset <= |p| && forall k :: 0 <= k < |fields| ==> fields[k] + 8 <= |p|
    ensures var r := ParseArrays(p, offset, fields); r.Err? ==> IsTailError(r.error)
    decreases |fields|
  {
    if fields != [] {
      var count := Word(p, fields[0] + 4);
      if count <= (|p| - offset) / 4 {
        ReadErrorsIn(p, offset + 4 * count, offset, count);
      }
      if ReadStrings(p, offset, fields[0]).Ok? {
        ArrayErrors(p, ReadStrings(p, offset, fields[0]).value.1, fields[1..]);
      }
    }
  }
}
