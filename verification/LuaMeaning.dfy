/**
 What converting a Lua value to JSON means, for values a script made in any way:
 which values can be encoded, and what the result says, without the conversion's
 own walk over a table.
 */
module LuaMeaning {
  import opened Common
  import opened LuaValues

  /** Some element of the array part is not nil. */
  predicate IsArray(t: Contents) {
    exists i :: 0 <= i < |t.part| && t.part[i] != Nil
  }

  function Slot(i: nat): Key {
    Index(Finite((i + 1) as real))
  }

  /** The table holds `m` under `key`, in its array part or elsewhere. */
  predicate IsMember(t: Contents, key: Key, m: Value) {
    && m != Nil
    && ((exists i: nat :: i < |t.part| && t.part[i] == m && key == Slot(i)) || (key, m) in t.entries)
  }

  function Filled(part: seq<Value>): set<nat> {
    set i: nat | i < |part| && part[i] != Nil
  }

  function Others(entries: seq<(Key, Value)>): set<nat> {
    set k: nat | k < |entries| && entries[k].1 != Nil
  }

  function MemberCount(t: Contents): nat {
    |Filled(t.part)| + |Others(t.entries)|
  }

  /** Element `i` is not after the last one that is not nil. */
  predicate IsWithin(part: seq<Value>, i: nat) {
    exists last :: i <= last < |part| && part[last] != Nil
  }

  /** Nothing but whole indices no later than the last element of the array part, and not too much of it. */
  ghost predicate IsArrayAllowed(t: Contents) {
    && (forall i :: 128 <= i < |t.part| ==> t.part[i] == Nil)
    && MemberCount(t) <= 128
    && forall key, m :: IsMember(t, key, m) ==>
         exists i: nat :: key == Slot(i) && IsWithin(t.part, i)
  }

  /** The names of the members listed before the `k`-th. */
  function NamesBefore(t: Contents, k: nat): set<string>
    requires k <= |t.entries|
  {
    set i: nat | i < k && t.entries[i].1 != Nil && t.entries[i].0.Name? :: t.entries[i].0.s
  }

  /** Nothing but names, and room for each as it comes. */
  ghost predicate IsObjectAllowed(t: Contents) {
    && (forall key, m :: IsMember(t, key, m) ==> key.Name?)
    && forall k: nat :: k < |t.entries| && t.entries[k].1 != Nil ==> |NamesBefore(t, k)| < 128
  }

  /** The value can be encoded when it is met at that depth. */
  ghost predicate IsEncodable(h: Heap, v: Value, depth: nat)
    decreases if depth > 16 then 0 else 17 - depth
  {
    && depth <= 16
    && match v
       case Nil => true
       case Bool(_) => true
       case Str(_) => true
       case Num(n) => n != NotFinite
       case Other => false
       case Table(ref) =>
         && (if IsArray(At(h, ref)) then IsArrayAllowed(At(h, ref)) else IsObjectAllowed(At(h, ref)))
         && forall key, m :: IsMember(At(h, ref), key, m) ==> IsEncodable(h, m, depth + 1)
  }

  /** The last member that is listed under this key outside the array part. */
  predicate IsLastEntry(t: Contents, key: Key, k: int) {
    && 0 <= k < |t.entries| && t.entries[k].0 == key && t.entries[k].1 != Nil
    && forall l :: k < l < |t.entries| && t.entries[l].1 != Nil ==> t.entries[l].0 != key
  }

  /** One past the last element that is not nil. */
  predicate IsSize(part: seq<Value>, n: nat) {
    n <= |part| && (n > 0 ==> part[n - 1] != Nil) && forall i :: n <= i < |part| ==> part[i] == Nil
  }

  /** `j` says what `v` is; a hole in an array is null. */
  ghost predicate Denotes(h: Heap, v: Value, j: JSON)
    decreases j, 0
  {
    match j
    case JNull => v == Nil
    case JBool(b) => v == Bool(b)
    case JNumber(x) => v == Num(Finite(x))
    case JString(s) => v == Str(s)
    case JArray(items) =>
      && v.Table? && IsArray(At(h, v.ref)) && IsSize(At(h, v.ref).part, |items|)
      && forall i: nat :: i < |items| ==> IsItem(h, At(h, v.ref), i, items[i])
    case JObject(fields) =>
      && v.Table? && !IsArray(At(h, v.ref))
      && (forall name :: name in fields <==> exists k :: IsLastEntry(At(h, v.ref), Name(name), k))
      && forall name :: name in fields ==> IsField(h, At(h, v.ref), name, fields[name])
  }

  /** `j` says what the array holds at `i`: what is listed under that index, or else its own element. */
  ghost predicate IsItem(h: Heap, t: Contents, i: nat, j: JSON)
    requires i < |t.part|
    decreases j, 1
  {
    && (forall k :: IsLastEntry(t, Slot(i), k) ==> Denotes(h, t.entries[k].1, j))
    && ((forall k :: !IsLastEntry(t, Slot(i), k)) ==> Denotes(h, t.part[i], j))
  }

  ghost predicate IsField(h: Heap, t: Contents, name: string, j: JSON)
    decreases j, 1
  {
    forall k :: IsLastEntry(t, Name(name), k) ==> Denotes(h, t.entries[k].1, j)
  }

  // ------------------------------------------------------- what a listing holds

  lemma {:induction false} IndexedMembers(part: seq<Value>, key: Key, m: Value)
    ensures (key, m) in Indexed(part) <==> m != Nil && exists i: nat :: i < |part| && part[i] == m && key == Slot(i)
  {
    if part != [] {
      var most, n := part[..|part| - 1], |part| - 1;
      IndexedMembers(most, key, m);
      assert Slot(n) == Index(Finite(|part| as real));
      assert forall i: nat :: i < n ==> part[i] == most[i];
      if i: nat :| i < |part| && part[i] == m && key == Slot(i) && m != Nil {
        assert i == n || (i < n && most[i] == m);
      }
    }
  }

  lemma FilledGrows(most: seq<Value>, v: Value)
    ensures |Filled(most + [v])| == |Filled(most)| + (if v == Nil then 0 else 1)
  {
    var part := most + [v];
    assert part[|most|] == v && forall i: nat :: i < |most| ==> part[i] == most[i];
    assert Filled(part) == if v == Nil then Filled(most) else Filled(most) + {|most|};
  }

  lemma {:induction false} IndexedCount(part: seq<Value>)
    ensures |Indexed(part)| == |Filled(part)|
  {
    if part != [] {
      var most := part[..|part| - 1];
      IndexedCount(most);
      FilledGrows(most, part[|part| - 1]);
      assert part == most + [part[|part| - 1]];
    }
  }

  lemma {:induction false} ListedMembers(entries: seq<(Key, Value)>, key: Key, m: Value)
    ensures (key, m) in Listed(entries) <==> m != Nil && (key, m) in entries
  {
    if entries != [] {
      var most, n := entries[..|entries| - 1], |entries| - 1;
      ListedMembers(most, key, m);
      assert entries == most + [entries[n]];
    }
  }

  lemma OthersGrow(most: seq<(Key, Value)>, entry: (Key, Value))
    ensures |Others(most + [entry])| == |Others(most)| + (if entry.1 == Nil then 0 else 1)
  {
    var entries := most + [entry];
    assert entries[|most|] == entry && forall k: nat :: k < |most| ==> entries[k] == most[k];
    assert Others(entries) == if entry.1 == Nil then Others(most) else Others(most) + {|most|};
  }

  lemma {:induction false} ListedCount(entries: seq<(Key, Value)>)
    ensures |Listed(entries)| == |Others(entries)|
  {
    if entries != [] {
      var most := entries[..|entries| - 1];
      ListedCount(most);
      OthersGrow(most, entries[|entries| - 1]);
      assert entries == most + [entries[|entries| - 1]];
    }
  }

  lemma ListingMembers(t: Contents)
    ensures forall key, m :: (key, m) in Listing(t) <==> IsMember(t, key, m)
    ensures |Listing(t)| == MemberCount(t)
  {
    forall key, m
      ensures (key, m) in Listing(t) <==> IsMember(t, key, m)
    {
      IndexedMembers(t.part, key, m);
      ListedMembers(t.entries, key, m);
    }
    IndexedCount(t.part);
    ListedCount(t.entries);
  }

  /** What is listed last under a key. */
  function LastOf(entries: seq<(Key, Value)>, key: Key): Option<Value> {
    if entries == [] then None
    else if entries[|entries| - 1].0 == key then Some(entries[|entries| - 1].1)
    else LastOf(entries[..|entries| - 1], key)
  }

  lemma {:induction false} LastOfJoin(a: seq<(Key, Value)>, b: seq<(Key, Value)>, key: Key)
    ensures LastOf(a + b, key) == if LastOf(b, key).Some? then LastOf(b, key) else LastOf(a, key)
    decreases |b|
  {
    if b == [] {
      assert a + b == a;
    } else {
      assert (a + b)[..|a + b| - 1] == a + b[..|b| - 1] && (a + b)[|a + b| - 1] == b[|b| - 1];
      LastOfJoin(a, b[..|b| - 1], key);
    }
  }

  lemma {:induction false} LastIndexed(part: seq<Value>, key: Key)
    ensures forall i: nat :: key == Slot(i) ==>
              LastOf(Indexed(part), key) == if i < |part| && part[i] != Nil then Some(part[i]) else None
    ensures key.Name? ==> LastOf(Indexed(part), key) == None
  {
    if part != [] {
      var most, n := part[..|part| - 1], |part| - 1;
      LastIndexed(most, key);
      var last := if part[n] == Nil then [] else [(Slot(n), part[n])];
      assert Indexed(part) == Indexed(most) + last;
      LastOfJoin(Indexed(most), last, key);
      assert forall i: nat :: i < n ==> part[i] == most[i];
      assert last != [] ==> last[..0] == [];
    }
  }

  /** The last entry of a list is the one just added, if it has the key, or the one before. */
  lemma LastEntryGrows(part: seq<Value>, most: seq<(Key, Value)>, entry: (Key, Value), key: Key, k: int)
    ensures IsLastEntry(Contents(part, most + [entry]), key, k) <==>
            if entry.1 != Nil && entry.0 == key then k == |most| else IsLastEntry(Contents(part, most), key, k)
  {
    var whole := most + [entry];
    assert whole[|most|] == entry && forall l :: 0 <= l < |most| ==> whole[l] == most[l];
  }

  ghost predicate IsFoundLast(t: Contents, key: Key, found: Option<Value>) {
    && (forall k :: IsLastEntry(t, key, k) ==> found == Some(t.entries[k].1))
    && (found.Some? ==> exists k :: IsLastEntry(t, key, k))
  }

  lemma FoundLastGrows(part: seq<Value>, most: seq<(Key, Value)>, entry: (Key, Value), key: Key, found: Option<Value>)
    requires IsFoundLast(Contents(part, most), key, found)
    ensures IsFoundLast(Contents(part, most + [entry]), key,
                        if entry.1 != Nil && entry.0 == key then Some(entry.1) else found)
  {
    var t := Contents(part, most + [entry]);
    if entry.1 != Nil && entry.0 == key {
      LastEntryGrows(part, most, entry, key, |most|);
    } else if k :| IsLastEntry(Contents(part, most), key, k) {
      LastEntryGrows(part, most, entry, key, k);
    }
    forall k | IsLastEntry(t, key, k)
      ensures (if entry.1 != Nil && entry.0 == key then Some(entry.1) else found) == Some(t.entries[k].1)
    {
      LastEntryGrows(part, most, entry, key, k);
    }
  }

  lemma LastListedOne(most: seq<(Key, Value)>, entry: (Key, Value), key: Key)
    ensures LastOf(Listed(most + [entry]), key)
         == if entry.1 != Nil && entry.0 == key then Some(entry.1) else LastOf(Listed(most), key)
  {
    assert (most + [entry])[..|most|] == most;
    var last := if entry.1 == Nil then [] else [entry];
    LastOfJoin(Listed(most), last, key);
    assert last != [] ==> last[..0] == [];
  }

  lemma {:induction false} LastListed(part: seq<Value>, entries: seq<(Key, Value)>, key: Key)
    ensures IsFoundLast(Contents(part, entries), key, LastOf(Listed(entries), key))
    decreases |entries|
  {
    if entries != [] {
      var most, entry := entries[..|entries| - 1], entries[|entries| - 1];
      LastListed(part, most, key);
      LastListedOne(most, entry, key);
      FoundLastGrows(part, most, entry, key, LastOf(Listed(most), key));
      assert entries == most + [entry];
    }
  }

  /** What the walk over a table finds last under a key. */
  lemma LastInListing(t: Contents, key: Key)
    ensures forall k :: IsLastEntry(t, key, k) ==> LastOf(Listing(t), key) == Some(t.entries[k].1)
    ensures (forall k :: !IsLastEntry(t, key, k)) ==>
              && (forall i: nat :: key == Slot(i) ==>
                    LastOf(Listing(t), key) == if i < |t.part| && t.part[i] != Nil then Some(t.part[i]) else None)
              && (key.Name? ==> LastOf(Listing(t), key) == None)
  {
    LastListed(t.part, t.entries, key);
    assert Contents(t.part, t.entries) == t;
    LastIndexed(t.part, key);
    LastOfJoin(Indexed(t.part), Listed(t.entries), key);
  }

  // --------------------------------------------------------- what the loops do

  ghost predicate AllConvert(h: Heap, entries: seq<(Key, Value)>, depth: nat) {
    forall k :: 0 <= k < |entries| ==> Convert(h, entries[k].1, depth).Ok?
  }

  predicate AllSlots(entries: seq<(Key, Value)>, size: nat) {
    forall k :: 0 <= k < |entries| ==> IsSlot(entries[k].0, size)
  }

  /** Each element is what was listed last for it, or what it was before. */
  ghost predicate IsFilled(h: Heap, entries: seq<(Key, Value)>, depth: nat, before: seq<JSON>, after: seq<JSON>) {
    && |after| == |before|
    && forall i: nat :: i < |after| ==>
         match LastOf(entries, Slot(i))
         case None => after[i] == before[i]
         case Some(m) => Convert(h, m, depth) == Ok(after[i])
  }

  lemma FilledFirst(h: Heap, entries: seq<(Key, Value)>, depth: nat, before: seq<JSON>, after: seq<JSON>)
    requires entries != [] && IsSlot(entries[0].0, |before|) && Convert(h, entries[0].1, depth).Ok?
    requires var next := before[entries[0].0.n.x.Floor - 1 := Convert(h, entries[0].1, depth).value];
             IsFilled(h, entries[1..], depth, next, after)
    ensures IsFilled(h, entries, depth, before, after)
  {
    forall i: nat | i < |after|
      ensures match LastOf(entries, Slot(i))
              case None => after[i] == before[i]
              case Some(m) => Convert(h, m, depth) == Ok(after[i])
    {
      assert entries == [entries[0]] + entries[1..];
      LastOfJoin([entries[0]], entries[1..], Slot(i));
      assert [entries[0]][..0] == [];
    }
  }

  lemma {:induction false} ElementsIff(h: Heap, entries: seq<(Key, Value)>, depth: nat, elements: seq<JSON>, count: nat)
    requires depth <= DEPTH_LIMIT && count <= MEMBER_LIMIT
    ensures Elements(h, entries, depth, elements, count).Ok? <==>
            AllSlots(entries, |elements|) && AllConvert(h, entries, depth + 1) && count + |entries| <= MEMBER_LIMIT
    ensures Elements(h, entries, depth, elements, count).Ok? ==>
              var j := Elements(h, entries, depth, elements, count).value;
              j.JArray? && IsFilled(h, entries, depth + 1, elements, j.items)
    decreases |entries|
  {
    if entries != [] {
      var (key, element) := entries[0];
      assert entries == [entries[0]] + entries[1..];
      if IsSlot(key, |elements|) && Convert(h, element, depth + 1).Ok? && count < MEMBER_LIMIT {
        var next := elements[key.n.x.Floor - 1 := Convert(h, element, depth + 1).value];
        ElementsIff(h, entries[1..], depth, next, count + 1);
        assert AllSlots(entries, |elements|) <==> AllSlots(entries[1..], |next|);
        assert AllConvert(h, entries, depth + 1) <==> AllConvert(h, entries[1..], depth + 1);
        if Elements(h, entries, depth, elements, count).Ok? {
          FilledFirst(h, entries, depth + 1, elements, Elements(h, entries, depth, elements, count).value.items);
        }
      } else {
        assert entries[0] == (key, element);
      }
    }
  }

  function NamesOf(entries: seq<(Key, Value)>): set<string> {
    set i: nat | i < |entries| && entries[i].0.Name? :: entries[i].0.s
  }

  /** Room for every entry, counting the fields there are already. */
  ghost predicate AllFit(entries: seq<(Key, Value)>, fields: set<string>) {
    forall k: nat :: k < |entries| ==> HasRoom(entries, fields, k)
  }

  predicate HasRoom(entries: seq<(Key, Value)>, fields: set<string>, k: nat)
    requires k < |entries|
  {
    entries[k].0.Name? && |fields + NamesOf(entries[..k])| < MEMBER_LIMIT
  }

  /** The field is what was listed last for it, or what it was before. */
  predicate IsSet(h: Heap, entries: seq<(Key, Value)>, depth: nat, before: map<string, JSON>, after: map<string, JSON>, name: string) {
    match LastOf(entries, Name(name))
    case None => (name in after <==> name in before) && (name in after ==> after[name] == before[name])
    case Some(m) => name in after && Convert(h, m, depth) == Ok(after[name])
  }

  ghost predicate AreSet(h: Heap, entries: seq<(Key, Value)>, depth: nat, before: map<string, JSON>, after: map<string, JSON>) {
    forall name :: IsSet(h, entries, depth, before, after, name)
  }

  lemma SetFirst(h: Heap, entries: seq<(Key, Value)>, depth: nat, before: map<string, JSON>, after: map<string, JSON>)
    requires entries != [] && entries[0].0.Name? && Convert(h, entries[0].1, depth).Ok?
    requires AreSet(h, entries[1..], depth, before[entries[0].0.s := Convert(h, entries[0].1, depth).value], after)
    ensures AreSet(h, entries, depth, before, after)
  {
    forall name
      ensures IsSet(h, entries, depth, before, after, name)
    {
      assert IsSet(h, entries[1..], depth, before[entries[0].0.s := Convert(h, entries[0].1, depth).value], after, name);
      assert entries == [entries[0]] + entries[1..];
      LastOfJoin([entries[0]], entries[1..], Name(name));
      assert [entries[0]][..0] == [];
    }
  }

  lemma RoomFirst(entries: seq<(Key, Value)>, fields: set<string>, k: nat)
    requires entries != [] && entries[0].0.Name? && k < |entries| - 1
    ensures HasRoom(entries, fields, k + 1) <==> HasRoom(entries[1..], fields + {entries[0].0.s}, k)
  {
    var name, rest := entries[0].0.s, entries[1..];
    assert entries[..k + 1] == [entries[0]] + rest[..k] && entries[k + 1] == rest[k];
    NamesJoin(entries[0], rest[..k]);
    assert fields + {name} + NamesOf(rest[..k]) == fields + NamesOf(entries[..k + 1]);
  }

  lemma FitFirst(entries: seq<(Key, Value)>, fields: set<string>)
    requires entries != [] && entries[0].0.Name? && |fields| < MEMBER_LIMIT
    ensures AllFit(entries, fields) <==> AllFit(entries[1..], fields + {entries[0].0.s})
  {
    forall k: nat | k < |entries| - 1
      ensures HasRoom(entries, fields, k + 1) <==> HasRoom(entries[1..], fields + {entries[0].0.s}, k)
    {
      RoomFirst(entries, fields, k);
    }
    assert fields + NamesOf(entries[..0]) == fields;
    assert HasRoom(entries, fields, 0);
    if AllFit(entries[1..], fields + {entries[0].0.s}) {
      forall k: nat | k < |entries|
        ensures HasRoom(entries, fields, k)
      {
        if k > 0 {
          assert HasRoom(entries[1..], fields + {entries[0].0.s}, k - 1);
        }
      }
    }
  }

  lemma NamesJoin(entry: (Key, Value), rest: seq<(Key, Value)>)
    requires entry.0.Name?
    ensures NamesOf([entry] + rest) == {entry.0.s} + NamesOf(rest)
  {
    var all := [entry] + rest;
    assert all[0] == entry && forall i: nat :: i < |rest| ==> all[i + 1] == rest[i];
  }

  lemma FitNeedsRoom(entries: seq<(Key, Value)>, fields: set<string>)
    requires entries != [] && AllFit(entries, fields)
    ensures entries[0].0.Name? && |fields| < MEMBER_LIMIT
  {
    assert fields + NamesOf(entries[..0]) == fields;
    assert HasRoom(entries, fields, 0);
  }

  lemma ConvertFirst(h: Heap, entries: seq<(Key, Value)>, depth: nat)
    requires entries != []
    ensures AllConvert(h, entries, depth) <==> Convert(h, entries[0].1, depth).Ok? && AllConvert(h, entries[1..], depth)
  {
    assert forall k :: 0 < k < |entries| ==> entries[k] == entries[1..][k - 1];
    if Convert(h, entries[0].1, depth).Ok? && AllConvert(h, entries[1..], depth) {
      forall k | 0 <= k < |entries|
        ensures Convert(h, entries[k].1, depth).Ok?
      {
        assert k > 0 ==> entries[k] == entries[1..][k - 1];
      }
    } else if AllConvert(h, entries, depth) {
      forall k | 0 <= k < |entries| - 1
        ensures Convert(h, entries[1..][k].1, depth).Ok?
      {
        assert entries[1..][k] == entries[k + 1];
      }
    }
  }

  /** The first entry's field is set, and the rest follows. */
  lemma FieldsFirst(h: Heap, entries: seq<(Key, Value)>, depth: nat, fields: map<string, JSON>)
    requires depth <= DEPTH_LIMIT && entries != []
    requires entries[0].0.Name? && |fields| < MEMBER_LIMIT && Convert(h, entries[0].1, depth + 1).Ok?
    ensures Fields(h, entries, depth, fields)
         == Fields(h, entries[1..], depth, fields[entries[0].0.s := Convert(h, entries[0].1, depth + 1).value])
  {
  }

  lemma FieldsRefuse(h: Heap, entries: seq<(Key, Value)>, depth: nat, fields: map<string, JSON>)
    requires depth <= DEPTH_LIMIT && entries != []
    ensures Fields(h, entries, depth, fields).Ok? ==>
              entries[0].0.Name? && |fields| < MEMBER_LIMIT && Convert(h, entries[0].1, depth + 1).Ok?
  {
  }

  /** The first entry can be set, and the rest then, exactly when all can. */
  lemma FirstThenRest(h: Heap, entries: seq<(Key, Value)>, depth: nat, fields: set<string>)
    requires entries != []
    ensures CanBeSet(h, entries, depth, fields) <==>
            && entries[0].0.Name? && |fields| < MEMBER_LIMIT && Convert(h, entries[0].1, depth).Ok?
            && CanBeSet(h, entries[1..], depth, fields + {entries[0].0.s})
  {
    ConvertFirst(h, entries, depth);
    if AllFit(entries, fields) {
      FitNeedsRoom(entries, fields);
    }
    if entries[0].0.Name? && |fields| < MEMBER_LIMIT {
      FitFirst(entries, fields);
    }
  }

  lemma SetKeys(fields: map<string, JSON>, name: string, j: JSON)
    ensures fields[name := j].Keys == fields.Keys + {name} && |fields| == |fields.Keys|
  {
  }

  ghost predicate CanBeSet(h: Heap, entries: seq<(Key, Value)>, depth: nat, fields: set<string>) {
    AllFit(entries, fields) && AllConvert(h, entries, depth)
  }

  lemma {:induction false} FieldsIff(h: Heap, entries: seq<(Key, Value)>, depth: nat, fields: map<string, JSON>)
    requires depth <= DEPTH_LIMIT
    ensures Fields(h, entries, depth, fields).Ok? <==> CanBeSet(h, entries, depth + 1, fields.Keys)
    decreases |entries|
  {
    if entries == [] {
      assert CanBeSet(h, entries, depth + 1, fields.Keys);
    } else {
      FieldsRefuse(h, entries, depth, fields);
      FirstThenRest(h, entries, depth + 1, fields.Keys);
      SetKeys(fields, "", JNull);
      if entries[0].0.Name? && |fields| < MEMBER_LIMIT && Convert(h, entries[0].1, depth + 1).Ok? {
        var j := Convert(h, entries[0].1, depth + 1).value;
        FieldsFirst(h, entries, depth, fields);
        SetKeys(fields, entries[0].0.s, j);
        FieldsIff(h, entries[1..], depth, fields[entries[0].0.s := j]);
      }
    }
  }

  lemma {:induction false} FieldsAreSet(h: Heap, entries: seq<(Key, Value)>, depth: nat, fields: map<string, JSON>)
    requires depth <= DEPTH_LIMIT && Fields(h, entries, depth, fields).Ok?
    ensures var j := Fields(h, entries, depth, fields).value;
            j.JObject? && AreSet(h, entries, depth + 1, fields, j.fields)
    decreases |entries|
  {
    if entries != [] {
      FieldsRefuse(h, entries, depth, fields);
      FieldsFirst(h, entries, depth, fields);
      FieldsAreSet(h, entries[1..], depth, fields[entries[0].0.s := Convert(h, entries[0].1, depth + 1).value]);
      SetFirst(h, entries, depth + 1, fields, Fields(h, entries, depth, fields).value.fields);
    }
  }

  // ------------------------------------------------------------ what is allowed

  lemma SlotsAre(key: Key, size: nat)
    ensures IsSlot(key, size) <==> exists i: nat :: i < size && key == Slot(i)
  {
    if IsSlot(key, size) {
      assert key == Slot(key.n.x.Floor - 1);
    }
  }

  lemma SizeIsLength(t: Contents)
    ensures Length(t.part) > 0 <==> IsArray(t)
    ensures IsSize(t.part, Length(t.part))
    ensures forall i: nat :: IsWithin(t.part, i) <==> i < Length(t.part)
  {
    var n := Length(t.part);
    forall i: nat
      ensures IsWithin(t.part, i) <==> i < n
    {
      if i < n {
        assert i <= n - 1 < |t.part| && t.part[n - 1] != Nil;
      }
    }
  }

  lemma SlotsWithin(t: Contents, key: Key)
    ensures IsSlot(key, Length(t.part)) <==> exists i: nat :: key == Slot(i) && IsWithin(t.part, i)
  {
    SlotsAre(key, Length(t.part));
    SizeIsLength(t);
  }

  lemma SlotsAllowed(t: Contents)
    ensures AllSlots(Listing(t), Length(t.part)) <==>
            forall key, m :: IsMember(t, key, m) ==> IsSlot(key, Length(t.part))
  {
    ListingMembers(t);
    if forall key, m :: IsMember(t, key, m) ==> IsSlot(key, Length(t.part)) {
      forall k | 0 <= k < |Listing(t)|
        ensures IsSlot(Listing(t)[k].0, Length(t.part))
      {
        assert Listing(t)[k] in Listing(t);
        assert IsMember(t, Listing(t)[k].0, Listing(t)[k].1);
      }
    }
  }

  lemma ArrayAllowedIff(t: Contents)
    ensures IsArrayAllowed(t) <==>
            Length(t.part) <= MEMBER_LIMIT && AllSlots(Listing(t), Length(t.part)) && |Listing(t)| <= MEMBER_LIMIT
  {
    ListingMembers(t);
    SizeIsLength(t);
    SlotsAllowed(t);
    forall key
      ensures IsSlot(key, Length(t.part)) <==> exists i: nat :: key == Slot(i) && IsWithin(t.part, i)
    {
      SlotsWithin(t, key);
    }
  }

  lemma {:induction false} NoneIndexed(part: seq<Value>)
    requires forall i :: 0 <= i < |part| ==> part[i] == Nil
    ensures Indexed(part) == []
  {
    if part != [] {
      NoneIndexed(part[..|part| - 1]);
    }
  }

  lemma FitOneMore(entries: seq<(Key, Value)>, entry: (Key, Value))
    ensures AllFit(entries + [entry], {}) <==> AllFit(entries, {}) && entry.0.Name? && |NamesOf(entries)| < MEMBER_LIMIT
  {
    var more := entries + [entry];
    forall k: nat | k < |entries|
      ensures HasRoom(more, {}, k) <==> HasRoom(entries, {}, k)
    {
      assert more[..k] == entries[..k] && more[k] == entries[k];
    }
    assert more[..|entries|] == entries && more[|entries|] == entry && {} + NamesOf(entries) == NamesOf(entries);
    assert HasRoom(more, {}, |entries|) <==> entry.0.Name? && |NamesOf(entries)| < MEMBER_LIMIT;
  }

  /** The `k`-th entry, unless it is nil, is named, and there is room for it. */
  predicate HasPlace(t: Contents, k: nat)
    requires k < |t.entries|
  {
    t.entries[k].1 != Nil ==> t.entries[k].0.Name? && |NamesBefore(t, k)| < 128
  }

  lemma NamesListed(t: Contents, n: nat)
    requires n <= |t.entries|
    ensures NamesOf(Listed(t.entries[..n])) == NamesBefore(t, n)
  {
    forall name
      ensures name in NamesOf(Listed(t.entries[..n])) <==> name in NamesBefore(t, n)
    {
      NameListed(t, n, name);
    }
  }

  lemma NameListed(t: Contents, n: nat, name: string)
    requires n <= |t.entries|
    ensures name in NamesOf(Listed(t.entries[..n])) <==> name in NamesBefore(t, n)
  {
    var listed := Listed(t.entries[..n]);
    if name in NamesOf(listed) {
      var i: nat :| i < |listed| && listed[i].0 == Name(name);
      assert listed[i] in listed;
      ListedMembers(t.entries[..n], listed[i].0, listed[i].1);
      var k :| 0 <= k < n && t.entries[..n][k] == listed[i];
      assert t.entries[k] == listed[i];
    }
    if name in NamesBefore(t, n) {
      var k: nat :| k < n && t.entries[k].1 != Nil && t.entries[k].0 == Name(name);
      assert t.entries[..n][k] == t.entries[k];
      ListedMembers(t.entries[..n], t.entries[k].0, t.entries[k].1);
      var i :| 0 <= i < |listed| && listed[i] == t.entries[k];
      assert listed[i].0 == Name(name);
    }
  }

  lemma {:induction false} ListedFits(t: Contents, n: nat)
    requires n <= |t.entries|
    ensures AllFit(Listed(t.entries[..n]), {}) <==> forall k: nat :: k < n ==> HasPlace(t, k)
  {
    if n > 0 {
      ListedFits(t, n - 1);
      FitsNext(t, n - 1);
      assert (forall k: nat :: k < n ==> HasPlace(t, k)) <==> (forall k: nat :: k < n - 1 ==> HasPlace(t, k)) && HasPlace(t, n - 1);
    }
  }

  lemma FitsNext(t: Contents, n: nat)
    requires n < |t.entries|
    ensures AllFit(Listed(t.entries[..n + 1]), {}) <==> AllFit(Listed(t.entries[..n]), {}) && HasPlace(t, n)
  {
    NamesListed(t, n);
    var most, entry := t.entries[..n], t.entries[n];
    assert t.entries[..n + 1][..n] == most && t.entries[..n + 1][n] == entry;
    if entry.1 == Nil {
      assert Listed(t.entries[..n + 1]) == Listed(most);
    } else {
      FitOneMore(Listed(most), entry);
      assert Listed(t.entries[..n + 1]) == Listed(most) + [entry];
      assert NamesOf(Listed(most)) == NamesBefore(t, n);
    }
  }

  lemma ObjectAllowedIff(t: Contents)
    requires !IsArray(t)
    ensures IsObjectAllowed(t) <==> AllFit(Listing(t), {})
  {
    NoneIndexed(t.part);
    assert Listing(t) == Listed(t.entries) && t.entries[..|t.entries|] == t.entries;
    ListedFits(t, |t.entries|);
    if IsObjectAllowed(t) {
      forall k: nat | k < |t.entries|
        ensures HasPlace(t, k)
      {
        if t.entries[k].1 != Nil {
          assert IsMember(t, t.entries[k].0, t.entries[k].1);
        }
      }
    } else if forall k: nat :: k < |t.entries| ==> HasPlace(t, k) {
      assert forall k: nat :: k < |t.entries| && t.entries[k].1 != Nil ==> HasPlace(t, k);
    }
  }

  ghost predicate MembersConvert(h: Heap, t: Contents, depth: nat) {
    forall key, m :: IsMember(t, key, m) ==> Convert(h, m, depth).Ok?
  }

  lemma MembersConvertIff(h: Heap, t: Contents, depth: nat)
    ensures AllConvert(h, Listing(t), depth) <==> MembersConvert(h, t, depth)
  {
    ListingMembers(t);
    if MembersConvert(h, t, depth) {
      forall k | 0 <= k < |Listing(t)|
        ensures Convert(h, Listing(t)[k].1, depth).Ok?
      {
        assert Listing(t)[k] in Listing(t);
        assert IsMember(t, Listing(t)[k].0, Listing(t)[k].1);
      }
    }
    if AllConvert(h, Listing(t), depth) {
      forall key, m | IsMember(t, key, m)
        ensures Convert(h, m, depth).Ok?
      {
        assert (key, m) in Listing(t);
      }
    }
  }

  /** What a table needs besides members that convert. */
  lemma TableIff(h: Heap, ref: nat, depth: nat)
    requires depth <= DEPTH_LIMIT
    ensures Convert(h, Table(ref), depth).Ok? <==>
            && MembersConvert(h, At(h, ref), depth + 1)
            && (if IsArray(At(h, ref)) then IsArrayAllowed(At(h, ref)) else IsObjectAllowed(At(h, ref)))
  {
    var t := At(h, ref);
    SizeIsLength(t);
    MembersConvertIff(h, t, depth + 1);
    if IsArray(t) {
      ArrayAllowedIff(t);
      ElementsIff(h, Listing(t), depth, seq(Length(t.part), _ => JNull), 0);
    } else {
      ObjectAllowedIff(t);
      FieldsIff(h, Listing(t), depth, map[]);
    }
  }

  /** Conversion succeeds exactly for the values that can be encoded. */
  lemma {:induction false} ConvertsIff(h: Heap, v: Value, depth: nat)
    ensures Convert(h, v, depth).Ok? <==> IsEncodable(h, v, depth)
    decreases Rank(depth)
  {
    if depth <= DEPTH_LIMIT && v.Table? {
      TableIff(h, v.ref, depth);
      forall key, m | IsMember(At(h, v.ref), key, m)
        ensures Convert(h, m, depth + 1).Ok? <==> IsEncodable(h, m, depth + 1)
      {
        ConvertsIff(h, m, depth + 1);
      }
    }
  }

  // ------------------------------------------------------------ what is denoted

  lemma ItemDenoted(h: Heap, ref: nat, nulls: seq<JSON>, items: seq<JSON>, i: nat, depth: nat)
    requires i < |items| <= |At(h, ref).part| && |nulls| == |items| && nulls[i] == JNull && depth <= DEPTH_LIMIT
    requires IsFilled(h, Listing(At(h, ref)), depth + 1, nulls, items)
    ensures IsItem(h, At(h, ref), i, items[i])
    decreases Rank(depth), 0
  {
    var t := At(h, ref);
    LastInListing(t, Slot(i));
    match LastOf(Listing(t), Slot(i))
    case None =>
    case Some(m) => ConvertDenotes(h, m, depth + 1);
  }

  lemma FieldDenoted(h: Heap, ref: nat, fields: map<string, JSON>, name: string, depth: nat)
    requires AreSet(h, Listing(At(h, ref)), depth + 1, map[], fields) && depth <= DEPTH_LIMIT
    ensures name in fields <==> exists k :: IsLastEntry(At(h, ref), Name(name), k)
    ensures name in fields ==> IsField(h, At(h, ref), name, fields[name])
    decreases Rank(depth), 0
  {
    var t := At(h, ref);
    LastInListing(t, Name(name));
    assert IsSet(h, Listing(t), depth + 1, map[], fields, name);
    match LastOf(Listing(t), Name(name))
    case None =>
    case Some(m) => ConvertDenotes(h, m, depth + 1);
  }

  /** What comes out says what went in. */
  lemma {:induction false} ConvertDenotes(h: Heap, v: Value, depth: nat)
    requires Convert(h, v, depth).Ok?
    ensures Denotes(h, v, Convert(h, v, depth).value)
    decreases Rank(depth), 1
  {
    if v.Table? {
      var t, j := At(h, v.ref), Convert(h, v, depth).value;
      SizeIsLength(t);
      if IsArray(t) {
        var nulls := seq(Length(t.part), _ => JNull);
        ElementsIff(h, Listing(t), depth, nulls, 0);
        forall i: nat | i < |j.items|
          ensures IsItem(h, t, i, j.items[i])
        {
          ItemDenoted(h, v.ref, nulls, j.items, i, depth);
        }
      } else {
        FieldsAreSet(h, Listing(t), depth, map[]);
        forall name
          ensures name in j.fields <==> exists k :: IsLastEntry(t, Name(name), k)
          ensures name in j.fields ==> IsField(h, t, name, j.fields[name])
        {
          FieldDenoted(h, v.ref, j.fields, name, depth);
        }
      }
    }
  }

  /** A value says at most one thing. */
  lemma {:induction false} DenotesOnce(h: Heap, v: Value, j: JSON, k: JSON)
    requires Denotes(h, v, j) && Denotes(h, v, k)
    ensures j == k
    decreases j, 0
  {
    if j.JArray? {
      var t := At(h, v.ref);
      forall i: nat | i < |j.items|
        ensures j.items[i] == k.items[i]
      {
        ItemOnce(h, t, i, j.items[i], k.items[i]);
      }
    } else if j.JObject? {
      var t := At(h, v.ref);
      forall name | name in j.fields
        ensures j.fields[name] == k.fields[name]
      {
        var l :| IsLastEntry(t, Name(name), l);
        assert IsField(h, t, name, j.fields[name]) && IsField(h, t, name, k.fields[name]);
        DenotesOnce(h, t.entries[l].1, j.fields[name], k.fields[name]);
      }
      assert j.fields == k.fields;
    }
  }

  lemma ItemOnce(h: Heap, t: Contents, i: nat, j: JSON, k: JSON)
    requires i < |t.part| && IsItem(h, t, i, j) && IsItem(h, t, i, k)
    ensures j == k
    decreases j, 1
  {
    if l :| IsLastEntry(t, Slot(i), l) {
      DenotesOnce(h, t.entries[l].1, j, k);
    } else {
      DenotesOnce(h, t.part[i], j, k);
    }
  }

  /**
   Conversion of any value on any heap, whatever a script made of it: the result is
   `j` if and only if everything in the value can be encoded and `j` says what it is.
   */
  lemma ConvertIff(h: Heap, v: Value, j: JSON)
    ensures Convert(h, v, 0) == Ok(j) <==> IsEncodable(h, v, 0) && Denotes(h, v, j)
  {
    ConvertsIff(h, v, 0);
    if Convert(h, v, 0).Ok? {
      ConvertDenotes(h, v, 0);
      if Denotes(h, v, j) {
        DenotesOnce(h, v, j, Convert(h, v, 0).value);
      }
    }
  }

  /** The refusals that a value meets by itself, before what it holds is looked at. */
  lemma RefusalMeaning(h: Heap, v: Value, depth: nat)
    ensures Convert(h, v, depth) == Err(Unencodable) <== depth <= 16 && v == Other
    ensures Convert(h, v, depth) == Err(InfiniteNumber) <== depth <= 16 && v == Num(NotFinite)
    ensures Convert(h, v, depth) == Err(Nesting) <== depth > 16
    ensures Convert(h, v, depth) == Err(ArraySize) <== depth <= 16 && v.Table? && IsWithin(At(h, v.ref).part, 128)
  {
    if v.Table? {
      SizeIsLength(At(h, v.ref));
    }
  }

  /** One table below another, however deep. */
  ghost predicate Reaches(h: Heap, v: Value, path: seq<Value>)
    decreases |path|
  {
    path == [] || (v.Table? && (exists key :: IsMember(At(h, v.ref), key, path[0])) && Reaches(h, path[0], path[1..]))
  }

  lemma {:induction false} UnencodableInside(h: Heap, v: Value, path: seq<Value>, depth: nat)
    requires Reaches(h, v, path)
    requires var inner := if path == [] then v else path[|path| - 1]; inner == Other || inner == Num(NotFinite)
    ensures !IsEncodable(h, v, depth)
    decreases |path|
  {
    if path != [] {
      var key :| IsMember(At(h, v.ref), key, path[0]);
      assert path[1..] != [] ==> path[1..][|path| - 2] == path[|path| - 1];
      UnencodableInside(h, path[0], path[1..], depth + 1);
    }
  }

  /** A function, or a number that is not finite, makes everything that holds it fail. */
  lemma InsideFails(h: Heap, v: Value, path: seq<Value>, depth: nat)
    requires Reaches(h, v, path)
    requires var inner := if path == [] then v else path[|path| - 1]; inner == Other || inner == Num(NotFinite)
    ensures Convert(h, v, depth).Err?
  {
    ConvertsIff(h, v, depth);
    UnencodableInside(h, v, path, depth);
  }
}
