/**
 JSON built as Lua values and converted back: what returns, and exactly when it
 is what went in.
 */
module LuaRoundTrip {
  import opened Common
  import opened LuaValues

  /** No null inside a container, and no empty array. */
  predicate IsPlain(j: JSON) {
    match j
    case JArray(items) => items != [] && forall k :: 0 <= k < |items| ==> items[k] != JNull && IsPlain(items[k])
    case JObject(fields) => forall name :: name in fields ==> fields[name] != JNull && IsPlain(fields[name])
    case _ => true
  }

  /** What a trip through Lua makes of a value: nulls go from containers, an array left empty becomes an empty object. */
  function Normal(j: JSON): JSON
    decreases j, if j.JArray? then |j.items| + 1 else 0
  {
    match j
    case JArray(items) => if Kept(items, |items|) == 0 then JObject(map[]) else JArray(NormalItems(j, |items|))
    case JObject(fields) => JObject(map name | name in fields && fields[name] != JNull :: Normal(fields[name]))
    case _ => j
  }

  function NormalItems(j: JSON, n: nat): (r: seq<JSON>)
    requires j.JArray? && n <= |j.items|
    ensures |r| == Kept(j.items, n)
    decreases j, n
  {
    if n == 0 then []
    else NormalItems(j, n - 1) + (if j.items[n - 1] == JNull then [] else [Normal(j.items[n - 1])])
  }

  lemma {:induction false} KeptAll(items: seq<JSON>, n: nat)
    requires n <= |items|
    ensures Kept(items, n) == n <==> forall k :: 0 <= k < n ==> items[k] != JNull
    ensures Kept(items, n) == 0 <==> forall k :: 0 <= k < n ==> items[k] == JNull
  {
    if n > 0 {
      KeptAll(items, n - 1);
    }
  }

  lemma {:induction false} NormalItem(j: JSON, n: nat, k: nat)
    requires j.JArray? && k < n <= |j.items| && j.items[k] != JNull
    ensures Kept(j.items, k) < Kept(j.items, n) && NormalItems(j, n)[Kept(j.items, k)] == Normal(j.items[k])
  {
    if k < n - 1 {
      NormalItem(j, n - 1, k);
    }
  }

  /** A value comes back unchanged exactly when it is plain. */
  lemma {:induction false} NormalIff(j: JSON)
    ensures Normal(j) == j <==> IsPlain(j)
    decreases j
  {
    if j.JArray? {
      var items := j.items;
      KeptAll(items, |items|);
      forall k: nat | k < |items|
        ensures Normal(items[k]) == items[k] <==> IsPlain(items[k])
      {
        NormalIff(items[k]);
      }
      if Kept(items, |items|) == |items| {
        ItemsIff(j);
      }
    } else if j.JObject? {
      forall name | name in j.fields
        ensures Normal(j.fields[name]) == j.fields[name] <==> IsPlain(j.fields[name])
      {
        NormalIff(j.fields[name]);
      }
      FieldsIff(j);
    }
  }

  lemma ItemsIff(j: JSON)
    requires j.JArray? && Kept(j.items, |j.items|) == |j.items|
    ensures NormalItems(j, |j.items|) == j.items <==> forall k :: 0 <= k < |j.items| ==> Normal(j.items[k]) == j.items[k]
  {
    var items := j.items;
    KeptAll(items, |items|);
    forall k: nat | k < |items|
      ensures NormalItems(j, |items|)[k] == Normal(items[k])
    {
      KeptAll(items, k);
      NormalItem(j, |items|, k);
    }
  }

  lemma FieldsIff(j: JSON)
    requires j.JObject?
    ensures Normal(j) == j <==> forall name :: name in j.fields ==> j.fields[name] != JNull && Normal(j.fields[name]) == j.fields[name]
  {
    var fields, after := j.fields, Normal(j).fields;
    if Normal(j) == j {
      forall name | name in fields
        ensures fields[name] != JNull && Normal(fields[name]) == fields[name]
      {
        assert name in after;
      }
    }
  }

  // ----------------------------------------------------- converting back

  /** The conversion gives `j` if that keeps to the limits, and fails otherwise. */
  predicate Gives(r: Result<JSON, ConvertError>, j: JSON, depth: nat) {
    (r.Ok? <==> Fits(j, depth)) && (r.Ok? ==> r.value == j)
  }

  /** Entry by entry, what the values of a listing convert to. */
  ghost predicate GiveItems(h: Heap, entries: seq<(Key, Value)>, items: seq<JSON>, depth: nat) {
    |entries| == |items| && forall k :: 0 <= k < |entries| ==> Gives(Convert(h, entries[k].1, depth), items[k], depth)
  }

  lemma {:induction false} IndexedDense(part: seq<Value>)
    requires forall k :: 0 <= k < |part| ==> part[k] != Nil
    ensures |Indexed(part)| == |part| == Length(part)
    ensures forall k :: 0 <= k < |part| ==> Indexed(part)[k] == (Index(Finite((k + 1) as real)), part[k])
    decreases |part|
  {
    if part != [] {
      IndexedDense(part[..|part| - 1]);
    }
  }

  lemma {:induction false} ListedDense(entries: seq<(Key, Value)>)
    requires forall k :: 0 <= k < |entries| ==> entries[k].1 != Nil
    ensures Listed(entries) == entries
    decreases |entries|
  {
    if entries != [] {
      ListedDense(entries[..|entries| - 1]);
    }
  }

  lemma {:induction false} ElementsGive(h: Heap, entries: seq<(Key, Value)>, items: seq<JSON>, depth: nat, elements: seq<JSON>, k: nat)
    requires depth <= DEPTH_LIMIT && GiveItems(h, entries, items, depth + 1) && |items| <= MEMBER_LIMIT
    requires forall i :: 0 <= i < |entries| ==> entries[i].0 == Index(Finite((i + 1) as real))
    requires k <= |items| == |elements| && elements[..k] == items[..k]
    ensures var r := Elements(h, entries[k..], depth, elements, k);
            && (r.Ok? <==> forall i :: k <= i < |items| ==> Fits(items[i], depth + 1))
            && (r.Ok? ==> r.value == JArray(items))
    decreases |items| - k
  {
    if k < |entries| {
      var rest := entries[k..];
      assert rest[0] == entries[k] && rest[1..] == entries[k + 1..];
      assert ((k + 1) as real).Floor == k + 1;
      if Fits(items[k], depth + 1) {
        var next := elements[k := items[k]];
        assert next[..k + 1] == items[..k + 1];
        ElementsGive(h, entries, items, depth, next, k + 1);
      }
    } else {
      assert entries[k..] == [] && elements == items;
    }
  }

  /** The map of the first `n` names to their items. */
  function FieldMap(entries: seq<(Key, Value)>, items: seq<JSON>, n: nat): (fields: map<string, JSON>)
    requires n <= |entries| == |items| && forall k :: 0 <= k < |entries| ==> entries[k].0.Name?
  {
    if n == 0 then map[] else FieldMap(entries, items, n - 1)[entries[n - 1].0.s := items[n - 1]]
  }

  predicate AreNames(entries: seq<(Key, Value)>) {
    && (forall k :: 0 <= k < |entries| ==> entries[k].0.Name?)
    && (forall k, l :: 0 <= k < l < |entries| ==> entries[k].0 != entries[l].0)
  }

  predicate HasEntry(fields: map<string, JSON>, entry: (Key, Value), item: JSON) {
    entry.0.Name? && entry.0.s in fields && fields[entry.0.s] == item
  }

  /** The map holds the first `n` names with their items, and nothing else. */
  ghost predicate IsMapOf(fields: map<string, JSON>, entries: seq<(Key, Value)>, items: seq<JSON>, n: nat)
    requires n <= |entries| == |items|
  {
    && |fields| == n && (forall k :: 0 <= k < n ==> HasEntry(fields, entries[k], items[k]))
    && forall name :: name in fields ==> exists k :: 0 <= k < n && entries[k].0 == Name(name)
  }

  lemma OneMoreEntry(fields: map<string, JSON>, entries: seq<(Key, Value)>, items: seq<JSON>, n: nat)
    requires n < |entries| == |items| && AreNames(entries) && IsMapOf(fields, entries, items, n)
    ensures IsMapOf(fields[entries[n].0.s := items[n]], entries, items, n + 1)
  {
    var name := entries[n].0.s;
    assert name !in fields;
    var next := fields[name := items[n]];
    assert |next| == n + 1;
    forall k | 0 <= k < n + 1
      ensures HasEntry(next, entries[k], items[k])
    {
      assert k < n ==> HasEntry(fields, entries[k], items[k]) && entries[k].0 != entries[n].0;
    }
    forall other | other in next
      ensures exists k :: 0 <= k < n + 1 && entries[k].0 == Name(other)
    {
      if other == name {
        assert entries[n].0 == Name(other);
      } else {
        var k :| 0 <= k < n && entries[k].0 == Name(other);
      }
    }
  }

  lemma {:induction false} FieldsAre(entries: seq<(Key, Value)>, items: seq<JSON>, n: nat)
    requires n <= |entries| == |items| && AreNames(entries)
    ensures IsMapOf(FieldMap(entries, items, n), entries, items, n)
  {
    if n > 0 {
      FieldsAre(entries, items, n - 1);
      OneMoreEntry(FieldMap(entries, items, n - 1), entries, items, n - 1);
    }
  }

  /** From entry `k` on: success exactly when what is left fits, and then the whole map. */
  ghost predicate GivesRest(r: Result<JSON, ConvertError>, items: seq<JSON>, depth: nat, k: nat, whole: map<string, JSON>) {
    && (r.Ok? <==> (k == |items| || |items| <= MEMBER_LIMIT) && forall i :: k <= i < |items| ==> Fits(items[i], depth))
    && (r.Ok? ==> r.value == JObject(whole))
  }

  lemma RestStep(r: Result<JSON, ConvertError>, items: seq<JSON>, depth: nat, k: nat, whole: map<string, JSON>)
    requires k < |items|
    requires if k < MEMBER_LIMIT && Fits(items[k], depth) then GivesRest(r, items, depth, k + 1, whole) else r.Err?
    ensures GivesRest(r, items, depth, k, whole)
  {
  }

  lemma {:induction false} FieldsGive(h: Heap, entries: seq<(Key, Value)>, items: seq<JSON>, depth: nat, k: nat)
    requires depth <= DEPTH_LIMIT && GiveItems(h, entries, items, depth + 1) && k <= |entries|
    requires AreNames(entries)
    ensures GivesRest(LuaValues.Fields(h, entries[k..], depth, FieldMap(entries, items, k)),
                      items, depth + 1, k, FieldMap(entries, items, |items|))
    decreases |items| - k
  {
    if k < |entries| {
      FieldsStep(h, entries, items, depth, k);
      if k < MEMBER_LIMIT && Fits(items[k], depth + 1) {
        FieldsGive(h, entries, items, depth, k + 1);
      }
      RestStep(LuaValues.Fields(h, entries[k..], depth, FieldMap(entries, items, k)),
               items, depth + 1, k, FieldMap(entries, items, |items|));
    } else {
      assert entries[k..] == [];
    }
  }

  lemma FieldsStep(h: Heap, entries: seq<(Key, Value)>, items: seq<JSON>, depth: nat, k: nat)
    requires depth <= DEPTH_LIMIT && GiveItems(h, entries, items, depth + 1) && k < |entries| && AreNames(entries)
    ensures var r := LuaValues.Fields(h, entries[k..], depth, FieldMap(entries, items, k));
            if k < MEMBER_LIMIT && Fits(items[k], depth + 1) then
              r == LuaValues.Fields(h, entries[k + 1..], depth, FieldMap(entries, items, k + 1))
            else r.Err?
  {
    FieldsAre(entries, items, k);
    var rest := entries[k..];
    assert rest[0] == entries[k] && rest[1..] == entries[k + 1..];
    assert Gives(Convert(h, entries[k].1, depth + 1), items[k], depth + 1);
  }

  // ---------------------------------------------------------------- theorems

  /** Which item took place `p` of the array part. */
  lemma {:induction false} ItemAt(items: seq<JSON>, n: nat, p: nat) returns (k: nat)
    requires n <= |items| && p < Kept(items, n)
    ensures k < n && items[k] != JNull && Kept(items, k) == p
  {
    if items[n - 1] != JNull && p == Kept(items, n - 1) {
      k := n - 1;
    } else {
      k := ItemAt(items, n - 1, p);
    }
  }

  /** The array part holds the kept items, none of them nil. */
  lemma ArrayPart(h: Heap, v: Value, j: JSON)
    requires j.JArray? && Represents(h, v, j)
    ensures var part := h[v.ref].part;
            && At(h, v.ref) == h[v.ref] && (forall p :: 0 <= p < |part| ==> part[p] != Nil)
            && |part| == Kept(j.items, |j.items|) == Length(part) && Listing(h[v.ref]) == Indexed(part)
            && |Indexed(part)| == |part|
            && forall p :: 0 <= p < |part| ==> Indexed(part)[p] == (Index(Finite((p + 1) as real)), part[p])
  {
    var part := h[v.ref].part;
    forall p | 0 <= p < |part|
      ensures part[p] != Nil
    {
      var k := ItemAt(j.items, |j.items|, p);
      RepresentsNil(h, part[p], j.items[k]);
    }
    IndexedDense(part);
    assert Listed([]) == [] && Indexed(part) + [] == Indexed(part);
  }

  lemma ArrayFits(items: seq<JSON>, depth: nat)
    requires depth <= DEPTH_LIMIT
    ensures Fits(JArray(items), depth) <==>
            |items| <= MEMBER_LIMIT && forall k :: 0 <= k < |items| ==> Fits(items[k], depth + 1)
  {
  }

  lemma {:induction false} ArrayReturns(h: Heap, v: Value, j: JSON, depth: nat)
    requires j.JArray? && Represents(h, v, j) && depth <= DEPTH_LIMIT
    ensures Gives(Convert(h, v, depth), Normal(j), depth)
    decreases j, 0
  {
    var part, items := h[v.ref].part, NormalItems(j, |j.items|);
    ArrayPart(h, v, j);
    forall p | 0 <= p < |part|
      ensures Gives(Convert(h, part[p], depth + 1), items[p], depth + 1)
    {
      var k := ItemAt(j.items, |j.items|, p);
      NormalItem(j, |j.items|, k);
      ReturnsNormal(h, part[p], j.items[k], depth + 1);
    }
    if part != [] {
      ArrayFits(items, depth);
      if |part| <= MEMBER_LIMIT {
        var blank := seq(|part|, _ => JNull);
        assert Indexed(part)[0..] == Indexed(part);
        ElementsGive(h, Indexed(part), items, depth, blank, 0);
      }
    }
  }

  /** The entries name the fields that are not null, each once. */
  ghost predicate Enumerates(entries: seq<(Key, Value)>, fields: map<string, JSON>) {
    && AreNames(entries)
    && (forall k :: 0 <= k < |entries| ==> entries[k].0.s in fields && fields[entries[k].0.s] != JNull)
    && (forall name :: name in fields && fields[name] != JNull ==> exists k :: 0 <= k < |entries| && entries[k].0 == Name(name))
  }

  lemma NamesEnumerate(entries: seq<(Key, Value)>, fields: map<string, JSON>)
    requires NamesFields(Names(entries), fields, {})
    ensures Enumerates(entries, fields)
  {
    var names := Names(entries);
    forall k | 0 <= k < |entries|
      ensures entries[k].0.Name? && entries[k].0.s in fields && fields[entries[k].0.s] != JNull
    {
      assert names[k] in names;
    }
    forall k, l | 0 <= k < l < |entries|
      ensures entries[k].0 != entries[l].0
    {
      assert names[k] != names[l];
    }
    forall name | name in fields && fields[name] != JNull
      ensures exists k :: 0 <= k < |entries| && entries[k].0 == Name(name)
    {
      assert Name(name) in names;
    }
  }

  lemma ObjectEntries(h: Heap, v: Value, j: JSON)
    requires j.JObject? && Represents(h, v, j)
    ensures Enumerates(h[v.ref].entries, j.fields)
    ensures forall k: nat :: k < |h[v.ref].entries| ==> HasField(h, h[v.ref].entries, j.fields, k)
  {
    NamesEnumerate(h[v.ref].entries, j.fields);
  }

  lemma ObjectListing(h: Heap, entries: seq<(Key, Value)>, fields: map<string, JSON>)
    requires Enumerates(entries, fields) && forall k: nat :: k < |entries| ==> HasField(h, entries, fields, k)
    ensures Listing(Contents([], entries)) == entries
  {
    forall k: nat | k < |entries|
      ensures entries[k].1 != Nil
    {
      assert HasField(h, entries, fields, k);
      RepresentsNil(h, entries[k].1, fields[entries[k].0.s]);
    }
    ListedDense(entries);
    assert Indexed([]) == [] && [] + entries == entries;
  }

  /** The normal forms of the values the entries hold. */
  function NormalFields(entries: seq<(Key, Value)>, j: JSON): (items: seq<JSON>)
    requires j.JObject? && forall k :: 0 <= k < |entries| ==> entries[k].0.Name? && entries[k].0.s in j.fields
    ensures |items| == |entries| && forall k :: 0 <= k < |entries| ==> items[k] == Normal(j.fields[entries[k].0.s])
  {
    seq(|entries|, k requires 0 <= k < |entries| => Normal(j.fields[entries[k].0.s]))
  }

  /** The map holds the normal forms of the fields that are not null. */
  ghost predicate HoldsNormal(back: map<string, JSON>, fields: map<string, JSON>) {
    && (forall name :: name in back ==> name in fields && fields[name] != JNull && back[name] == Normal(fields[name]))
    && (forall name :: name in fields && fields[name] != JNull ==> name in back)
  }

  lemma NormalHeld(back: map<string, JSON>, fields: map<string, JSON>)
    requires HoldsNormal(back, fields)
    ensures JObject(back) == Normal(JObject(fields))
  {
    assert back == map name | name in fields && fields[name] != JNull :: Normal(fields[name]);
  }

  /** The fields that come back are those of the normal form, in whatever order they were listed. */
  lemma FieldsReturn(back: map<string, JSON>, entries: seq<(Key, Value)>, j: JSON)
    requires j.JObject? && Enumerates(entries, j.fields) && IsMapOf(back, entries, NormalFields(entries, j), |entries|)
    ensures HoldsNormal(back, j.fields)
  {
    forall name | name in back
      ensures name in j.fields && j.fields[name] != JNull && back[name] == Normal(j.fields[name])
    {
      NameReturns(back, entries, j, name);
    }
    forall name | name in j.fields && j.fields[name] != JNull
      ensures name in back
    {
      NameKept(back, entries, j, name);
    }
  }

  lemma NameReturns(back: map<string, JSON>, entries: seq<(Key, Value)>, j: JSON, name: string)
    requires j.JObject? && Enumerates(entries, j.fields) && IsMapOf(back, entries, NormalFields(entries, j), |entries|)
    requires name in back
    ensures name in j.fields && j.fields[name] != JNull && back[name] == Normal(j.fields[name])
  {
    var k :| 0 <= k < |entries| && entries[k].0 == Name(name);
    assert HasEntry(back, entries[k], NormalFields(entries, j)[k]);
  }

  lemma NameKept(back: map<string, JSON>, entries: seq<(Key, Value)>, j: JSON, name: string)
    requires j.JObject? && Enumerates(entries, j.fields) && IsMapOf(back, entries, NormalFields(entries, j), |entries|)
    requires name in j.fields && j.fields[name] != JNull
    ensures name in back
  {
    var k :| 0 <= k < |entries| && entries[k].0 == Name(name);
    assert HasEntry(back, entries[k], NormalFields(entries, j)[k]);
  }

  lemma ObjectFits(fields: map<string, JSON>, entries: seq<(Key, Value)>, items: seq<JSON>, depth: nat)
    requires |entries| == |items| && depth <= DEPTH_LIMIT && IsMapOf(fields, entries, items, |items|)
    ensures Fits(JObject(fields), depth) <==>
            |items| <= MEMBER_LIMIT && forall k :: 0 <= k < |items| ==> Fits(items[k], depth + 1)
  {
    if Fits(JObject(fields), depth) {
      forall k | 0 <= k < |items|
        ensures Fits(items[k], depth + 1)
      {
        assert HasEntry(fields, entries[k], items[k]);
      }
    } else if |items| <= MEMBER_LIMIT {
      var name :| name in fields && !Fits(fields[name], depth + 1);
      var k :| 0 <= k < |items| && entries[k].0 == Name(name);
      assert HasEntry(fields, entries[k], items[k]);
    }
  }

  /** What the entries of a table hold converts to the normal forms of its fields. */
  lemma {:induction false} EntriesConvert(h: Heap, entries: seq<(Key, Value)>, j: JSON, depth: nat)
    requires j.JObject? && (forall k :: 0 <= k < |entries| ==> entries[k].0.Name? && entries[k].0.s in j.fields)
    requires forall k: nat :: k < |entries| ==> HasField(h, entries, j.fields, k)
    ensures GiveItems(h, entries, NormalFields(entries, j), depth)
    decreases j, 0
  {
    var items := NormalFields(entries, j);
    forall k | 0 <= k < |entries|
      ensures Gives(Convert(h, entries[k].1, depth), items[k], depth)
    {
      assert HasField(h, entries, j.fields, k);
      ReturnsNormal(h, entries[k].1, j.fields[entries[k].0.s], depth);
    }
  }

  lemma EntriesGive(h: Heap, entries: seq<(Key, Value)>, items: seq<JSON>, depth: nat)
    requires GiveItems(h, entries, items, depth + 1) && depth <= DEPTH_LIMIT
    requires AreNames(entries)
    ensures Gives(LuaValues.Fields(h, entries, depth, map[]), JObject(FieldMap(entries, items, |entries|)), depth)
  {
    FieldsGive(h, entries, items, depth, 0);
    assert entries[0..] == entries;
    FieldsAre(entries, items, |entries|);
    ObjectFits(FieldMap(entries, items, |entries|), entries, items, depth);
  }

  /** The map that the entries fill is the normal form of the object. */
  lemma FieldMapIsNormal(entries: seq<(Key, Value)>, j: JSON)
    requires j.JObject? && Enumerates(entries, j.fields)
    ensures JObject(FieldMap(entries, NormalFields(entries, j), |entries|)) == Normal(j)
  {
    var items := NormalFields(entries, j);
    FieldsAre(entries, items, |entries|);
    FieldsReturn(FieldMap(entries, items, |entries|), entries, j);
    NormalHeld(FieldMap(entries, items, |entries|), j.fields);
  }

  lemma EntriesReturn(h: Heap, entries: seq<(Key, Value)>, j: JSON, depth: nat)
    requires j.JObject? && Enumerates(entries, j.fields) && depth <= DEPTH_LIMIT
    requires GiveItems(h, entries, NormalFields(entries, j), depth + 1)
    ensures Gives(LuaValues.Fields(h, entries, depth, map[]), Normal(j), depth)
  {
    EntriesGive(h, entries, NormalFields(entries, j), depth);
    FieldMapIsNormal(entries, j);
  }

  /** A table without an array part is converted field by field. */
  lemma ObjectConverts(h: Heap, v: Value, depth: nat)
    requires v.Table? && v.ref < |h| && h[v.ref].part == [] && depth <= DEPTH_LIMIT
    ensures Convert(h, v, depth) == LuaValues.Fields(h, Listing(h[v.ref]), depth, map[])
  {
    assert At(h, v.ref) == h[v.ref] && Length([]) == 0;
  }

  lemma {:induction false} ObjectReturns(h: Heap, v: Value, j: JSON, depth: nat)
    requires j.JObject? && Represents(h, v, j) && depth <= DEPTH_LIMIT
    ensures Gives(Convert(h, v, depth), Normal(j), depth)
    decreases j, 1
  {
    var entries := h[v.ref].entries;
    ObjectEntries(h, v, j);
    ObjectListing(h, entries, j.fields);
    assert h[v.ref] == Contents([], entries);
    ObjectConverts(h, v, depth);
    EntriesConvert(h, entries, j, depth + 1);
    EntriesReturn(h, entries, j, depth);
  }

  /** What a built value converts back to, at any depth and whatever order its fields were set in. */
  lemma {:induction false} ReturnsNormal(h: Heap, v: Value, j: JSON, depth: nat)
    requires Represents(h, v, j)
    ensures Gives(Convert(h, v, depth), Normal(j), depth)
    decreases j, 2
  {
    if depth <= DEPTH_LIMIT {
      if j.JArray? {
        ArrayReturns(h, v, j, depth);
      } else if j.JObject? {
        ObjectReturns(h, v, j, depth);
      }
    }
  }

  /** The round trip is exact exactly for plain values within the limits. */
  lemma RoundTripIff(h: Heap, v: Value, j: JSON)
    requires Represents(h, v, j)
    ensures Convert(h, v, 0) == Ok(j) <==> IsPlain(j) && Fits(j, 0)
  {
    ReturnsNormal(h, v, j, 0);
    NormalIff(j);
  }

  /** Both conversions, one after the other, over any heap. */
  method ThereAndBack(h: Heap, j: JSON) returns (r: Result<JSON, ConvertError>)
    ensures r == Ok(j) <==> IsPlain(j) && Fits(j, 0)
    ensures r.Ok? <==> Fits(Normal(j), 0)
    ensures r.Ok? ==> r.value == Normal(j)
  {
    var g, v := ToLua(h, j);
    r := ToJSON(g, v, 0);
    ReturnsNormal(g, v, j, 0);
    RoundTripIff(g, v, j);
  }
}
