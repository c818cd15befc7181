/**
 Converting between decoded JSON and Lua values.  Lua tables live on a heap and
 may refer to one another in cycles; a table is its array part and its other
 entries in the order in which they are listed.
 */
module LuaValues {
  import opened Common

  const DEPTH_LIMIT: nat := 16
  const MEMBER_LIMIT: nat := 128

  datatype JSON =
    | JNull | JBool(b: bool) | JNumber(x: real) | JString(s: string)
    | JArray(items: seq<JSON>) | JObject(fields: map<string, JSON>)

  datatype Number = Finite(x: real) | NotFinite

  datatype Value = Nil | Bool(b: bool) | Num(n: Number) | Str(s: string) | Table(ref: nat) | Other

  datatype Key = Index(n: Number) | Name(s: string) | OtherKey

  datatype Contents = Contents(part: seq<Value>, entries: seq<(Key, Value)>)

  type Heap = seq<Contents>

  datatype ConvertError =
    | Nesting | ArraySize | ArrayKeys | FieldNames | FieldCount | Unencodable | InfiniteNumber

  function At(h: Heap, ref: nat): Contents {
    if ref < |h| then h[ref] else Contents([], [])
  }

  /** One past the last element of the array part that is not nil. */
  function Length(part: seq<Value>): (n: nat)
    ensures n <= |part| && (n > 0 ==> part[n - 1] != Nil) && forall k :: n <= k < |part| ==> part[k] == Nil
  {
    if part == [] then 0 else if part[|part| - 1] != Nil then |part| else Length(part[..|part| - 1])
  }

  /** The array part's elements with their indices, skipping nil. */
  function Indexed(part: seq<Value>): seq<(Key, Value)> {
    if part == [] then []
    else Indexed(part[..|part| - 1])
         + (if part[|part| - 1] == Nil then [] else [(Index(Finite(|part| as real)), part[|part| - 1])])
  }

  function Listed(entries: seq<(Key, Value)>): seq<(Key, Value)> {
    if entries == [] then []
    else Listed(entries[..|entries| - 1]) + (if entries[|entries| - 1].1 == Nil then [] else [entries[|entries| - 1]])
  }

  /** What stepping through a table yields. */
  function Listing(t: Contents): seq<(Key, Value)> {
    Indexed(t.part) + Listed(t.entries)
  }

  // ------------------------------------------------------------ Lua to JSON

  function Rank(depth: nat): nat { if depth > DEPTH_LIMIT then 0 else DEPTH_LIMIT + 1 - depth }

  predicate IsSlot(key: Key, size: nat) {
    key.Index? && key.n.Finite? && key.n.x == key.n.x.Floor as real && 1 <= key.n.x.Floor <= size
  }

  function Convert(h: Heap, v: Value, depth: nat): Result<JSON, ConvertError>
    decreases Rank(depth), 1, 0
  {
    if depth > DEPTH_LIMIT then Err(Nesting)
    else match v
      case Nil => Ok(JNull)
      case Bool(b) => Ok(JBool(b))
      case Num(n) => if n.Finite? then Ok(JNumber(n.x)) else Err(InfiniteNumber)
      case Str(s) => Ok(JString(s))
      case Other => Err(Unencodable)
      case Table(ref) =>
        var t := At(h, ref);
        var n := Length(t.part);
        if n > MEMBER_LIMIT then Err(ArraySize)
        else if n > 0 then Elements(h, Listing(t), depth, seq(n, _ => JNull), 0)
        else Fields(h, Listing(t), depth, map[])
  }

  function Elements(h: Heap, entries: seq<(Key, Value)>, depth: nat, elements: seq<JSON>, count: nat): Result<JSON, ConvertError>
    requires depth <= DEPTH_LIMIT
    decreases Rank(depth), 0, |entries|
  {
    if entries == [] then Ok(JArray(elements))
    else
      var (key, element) := entries[0];
      if !IsSlot(key, |elements|) then Err(ArrayKeys)
      else match Convert(h, element, depth + 1)
        case Err(e) => Err(e)
        case Ok(j) =>
          if count + 1 > MEMBER_LIMIT then Err(ArraySize)
          else Elements(h, entries[1..], depth, elements[key.n.x.Floor - 1 := j], count + 1)
  }

  function Fields(h: Heap, entries: seq<(Key, Value)>, depth: nat, fields: map<string, JSON>): Result<JSON, ConvertError>
    requires depth <= DEPTH_LIMIT
    decreases Rank(depth), 0, |entries|
  {
    if entries == [] then Ok(JObject(fields))
    else
      var (key, element) := entries[0];
      if !key.Name? then Err(FieldNames)
      else if |fields| >= MEMBER_LIMIT then Err(FieldCount)
      else match Convert(h, element, depth + 1)
        case Err(e) => Err(e)
        case Ok(j) => Fields(h, entries[1..], depth, fields[key.s := j])
  }

  /** The recursion over tables, which ends on every heap because each level is one deeper. */
  method ToJSON(h: Heap, v: Value, depth: nat) returns (r: Result<JSON, ConvertError>)
    ensures r == Convert(h, v, depth)
    decreases Rank(depth)
  {
    if depth > DEPTH_LIMIT { return Err(Nesting); }
    match v
    case Nil => return Ok(JNull);
    case Bool(b) => return Ok(JBool(b));
    case Num(n) => return if n.Finite? then Ok(JNumber(n.x)) else Err(InfiniteNumber);
    case Str(s) => return Ok(JString(s));
    case Other => return Err(Unencodable);
    case Table(ref) =>
      var t := At(h, ref);
      var n, entries := Length(t.part), Listing(t);
      if n > MEMBER_LIMIT { return Err(ArraySize); }
      if n > 0 {
        r := ReadElements(h, entries, depth, n);
      } else {
        r := ReadFields(h, entries, depth);
      }
  }

  method ReadElements(h: Heap, entries: seq<(Key, Value)>, depth: nat, size: nat) returns (r: Result<JSON, ConvertError>)
    requires depth <= DEPTH_LIMIT
    ensures r == Elements(h, entries, depth, seq(size, _ => JNull), 0)
    decreases Rank(depth), 0
  {
    var elements := seq(size, _ => JNull);
    ghost var whole := Elements(h, entries, depth, elements, 0);
    var count := 0;
    for step := 0 to |entries|
      invariant |elements| == size && count == step
      invariant Elements(h, entries[step..], depth, elements, count) == whole
    {
      assert entries[step..][0] == entries[step] && entries[step..][1..] == entries[step + 1..];
      var (key, element) := entries[step];
      if !IsSlot(key, |elements|) { return Err(ArrayKeys); }
      var converted := ToJSON(h, element, depth + 1);
      if converted.Err? { return Err(converted.error); }
      elements := elements[key.n.x.Floor - 1 := converted.value];
      count := count + 1;
      if count > MEMBER_LIMIT { return Err(ArraySize); }
    }
    r := Ok(JArray(elements));
  }

  method ReadFields(h: Heap, entries: seq<(Key, Value)>, depth: nat) returns (r: Result<JSON, ConvertError>)
    requires depth <= DEPTH_LIMIT
    ensures r == Fields(h, entries, depth, map[])
    decreases Rank(depth), 0
  {
    var fields: map<string, JSON> := map[];
    ghost var whole := Fields(h, entries, depth, fields);
    for step := 0 to |entries|
      invariant Fields(h, entries[step..], depth, fields) == whole
    {
      assert entries[step..][0] == entries[step] && entries[step..][1..] == entries[step + 1..];
      var (key, element) := entries[step];
      if !key.Name? { return Err(FieldNames); }
      if |fields| >= MEMBER_LIMIT { return Err(FieldCount); }
      var converted := ToJSON(h, element, depth + 1);
      if converted.Err? { return Err(converted.error); }
      fields := fields[key.s := converted.value];
    }
    r := Ok(JObject(fields));
  }

  // ---------------------------------------------------- limits and cycles

  /** No deeper than the limit when it starts at `depth`, and no container too large. */
  predicate Fits(j: JSON, depth: nat) {
    && depth <= DEPTH_LIMIT
    && match j
       case JArray(items) => |items| <= MEMBER_LIMIT && forall k :: 0 <= k < |items| ==> Fits(items[k], depth + 1)
       case JObject(fields) => |fields| <= MEMBER_LIMIT && forall name :: name in fields ==> Fits(fields[name], depth + 1)
       case _ => true
  }

  lemma {:induction false} IndexedNotEmpty(part: seq<Value>)
    requires Length(part) > 0
    ensures Indexed(part) != []
    decreases |part|
  {
    if part[|part| - 1] == Nil {
      IndexedNotEmpty(part[..|part| - 1]);
    }
  }

  /** Whatever comes out, from any heap, keeps to the limits. */
  lemma {:induction false} ResultFits(h: Heap, v: Value, depth: nat)
    requires Convert(h, v, depth).Ok?
    ensures Fits(Convert(h, v, depth).value, depth)
    decreases Rank(depth), 1, 0
  {
    if v.Table? {
      var t := At(h, v.ref);
      if Length(t.part) > 0 {
        IndexedNotEmpty(t.part);
        ElementsFit(h, Listing(t), depth, seq(Length(t.part), _ => JNull), 0);
      } else {
        FieldsFit(h, Listing(t), depth, map[]);
      }
    }
  }

  lemma {:induction false} ElementsFit(h: Heap, entries: seq<(Key, Value)>, depth: nat, elements: seq<JSON>, count: nat)
    requires depth <= DEPTH_LIMIT && Elements(h, entries, depth, elements, count).Ok?
    requires |elements| <= MEMBER_LIMIT && forall k :: 0 <= k < |elements| ==> elements[k] == JNull || Fits(elements[k], depth + 1)
    requires entries != [] || depth < DEPTH_LIMIT
    ensures Fits(Elements(h, entries, depth, elements, count).value, depth)
    decreases Rank(depth), 0, |entries|
  {
    if entries != [] {
      var (key, element) := entries[0];
      ResultFits(h, element, depth + 1);
      var next := elements[key.n.x.Floor - 1 := Convert(h, element, depth + 1).value];
      ElementsFit(h, entries[1..], depth, next, count + 1);
    }
  }

  lemma {:induction false} FieldsFit(h: Heap, entries: seq<(Key, Value)>, depth: nat, fields: map<string, JSON>)
    requires depth <= DEPTH_LIMIT && Fields(h, entries, depth, fields).Ok?
    requires |fields| <= MEMBER_LIMIT && forall name :: name in fields ==> Fits(fields[name], depth + 1)
    ensures Fits(Fields(h, entries, depth, fields).value, depth)
    decreases Rank(depth), 0, |entries|
  {
    if entries != [] {
      var (key, element) := entries[0];
      ResultFits(h, element, depth + 1);
      FieldsFit(h, entries[1..], depth, fields[key.s := Convert(h, element, depth + 1).value]);
    }
  }

  predicate Holds(t: Contents, ref: nat) {
    exists k :: 0 <= k < |Listing(t)| && Listing(t)[k].1 == Table(ref)
  }

  /** Each table holds the next. */
  predicate IsChain(h: Heap, refs: seq<nat>) {
    refs != [] && forall k :: 0 < k < |refs| ==> Holds(At(h, refs[k - 1]), refs[k])
  }

  /** A conversion that succeeds has descended into everything it was given. */
  lemma {:induction false} ElementsDescend(h: Heap, entries: seq<(Key, Value)>, depth: nat, elements: seq<JSON>, count: nat, k: nat)
    requires depth <= DEPTH_LIMIT && Elements(h, entries, depth, elements, count).Ok? && k < |entries|
    ensures Convert(h, entries[k].1, depth + 1).Ok?
    decreases |entries|
  {
    if k > 0 {
      var (key, element) := entries[0];
      var next := elements[key.n.x.Floor - 1 := Convert(h, element, depth + 1).value];
      ElementsDescend(h, entries[1..], depth, next, count + 1, k - 1);
    }
  }

  lemma {:induction false} FieldsDescend(h: Heap, entries: seq<(Key, Value)>, depth: nat, fields: map<string, JSON>, k: nat)
    requires depth <= DEPTH_LIMIT && Fields(h, entries, depth, fields).Ok? && k < |entries|
    ensures Convert(h, entries[k].1, depth + 1).Ok?
    decreases |entries|
  {
    if k > 0 {
      var (key, element) := entries[0];
      FieldsDescend(h, entries[1..], depth, fields[key.s := Convert(h, element, depth + 1).value], k - 1);
    }
  }

  lemma ConvertDescends(h: Heap, ref: nat, depth: nat, inner: nat)
    requires Convert(h, Table(ref), depth).Ok? && Holds(At(h, ref), inner)
    ensures Convert(h, Table(inner), depth + 1).Ok?
  {
    var t := At(h, ref);
    var k :| 0 <= k < |Listing(t)| && Listing(t)[k].1 == Table(inner);
    if Length(t.part) > 0 {
      ElementsDescend(h, Listing(t), depth, seq(Length(t.part), _ => JNull), 0, k);
    } else {
      FieldsDescend(h, Listing(t), depth, map[], k);
    }
  }

  /** Tables nested more than seventeen deep are refused, wherever in the heap they hang together. */
  lemma {:induction false} ChainsAreShort(h: Heap, refs: seq<nat>, depth: nat)
    requires IsChain(h, refs) && Convert(h, Table(refs[0]), depth).Ok?
    ensures depth + |refs| <= DEPTH_LIMIT + 1
    decreases |refs|
  {
    if |refs| > 1 {
      assert Holds(At(h, refs[0]), refs[1]);
      ConvertDescends(h, refs[0], depth, refs[1]);
      assert IsChain(h, refs[1..]);
      ChainsAreShort(h, refs[1..], depth + 1);
    }
  }

  /** `times` turns around a cycle of tables. */
  function Turns(cycle: seq<nat>, times: nat): (refs: seq<nat>)
    requires cycle != []
    ensures |refs| == times * |cycle| && (times > 0 ==> refs[0] == cycle[0])
  {
    if times == 0 then [] else
      var rest := Turns(cycle, times - 1);
      assert times * |cycle| == |cycle| + (times - 1) * |cycle|;
      cycle + rest
  }

  lemma {:induction false} TurnsAreChain(h: Heap, cycle: seq<nat>, times: nat)
    requires IsChain(h, cycle) && Holds(At(h, cycle[|cycle| - 1]), cycle[0]) && times > 0
    ensures IsChain(h, Turns(cycle, times))
  {
    if times > 1 {
      TurnsAreChain(h, cycle, times - 1);
      var rest := Turns(cycle, times - 1);
      var refs := Turns(cycle, times);
      assert refs == cycle + rest;
      forall k | 0 < k < |refs|
        ensures Holds(At(h, refs[k - 1]), refs[k])
      {
        if k > |cycle| {
          assert refs[k - 1] == rest[k - 1 - |cycle|] && refs[k] == rest[k - |cycle|];
        }
      }
    } else {
      assert Turns(cycle, 1) == cycle + [];
    }
  }

  /** A table that holds itself, directly or through others, is always refused. */
  lemma CyclesAreRefused(h: Heap, cycle: seq<nat>, depth: nat)
    requires IsChain(h, cycle) && Holds(At(h, cycle[|cycle| - 1]), cycle[0])
    ensures Convert(h, Table(cycle[0]), depth).Err?
  {
    if Convert(h, Table(cycle[0]), depth).Ok? {
      TurnsAreChain(h, cycle, 18);
      assert |Turns(cycle, 18)| >= 18;
      ChainsAreShort(h, Turns(cycle, 18), depth);
    }
  }

  // ------------------------------------------------------------ JSON to Lua

  /** How many of the first `n` items are not null. */
  function Kept(items: seq<JSON>, n: nat): (k: nat)
    requires n <= |items|
    ensures k <= n
  {
    if n == 0 then 0 else Kept(items, n - 1) + (if items[n - 1].JNull? then 0 else 1)
  }

  function Names(entries: seq<(Key, Value)>): seq<Key> {
    seq(|entries|, k requires 0 <= k < |entries| => entries[k].0)
  }

  /** Keys name distinct fields: those of the object that are neither null nor still to be set. */
  ghost predicate NamesFields(names: seq<Key>, fields: map<string, JSON>, todo: set<string>) {
    && (forall k, l :: 0 <= k < l < |names| ==> names[k] != names[l])
    && (forall key :: key in names <==> key.Name? && key.s in fields && key.s !in todo && !fields[key.s].JNull?)
  }

  /** `v` is what building `j` gives: nulls vanish from containers, fields come in any order. */
  ghost predicate Represents(h: Heap, v: Value, j: JSON)
    decreases j
  {
    match j
    case JNull => v == Nil
    case JBool(b) => v == Bool(b)
    case JNumber(x) => v == Num(Finite(x))
    case JString(s) => v == Str(s)
    case JArray(items) =>
      && v.Table? && v.ref < |h| && h[v.ref].entries == [] && |h[v.ref].part| == Kept(items, |items|)
      && forall k: nat :: k < |items| && !items[k].JNull? ==>
           Kept(items, k) < |h[v.ref].part| && Represents(h, h[v.ref].part[Kept(items, k)], items[k])
    case JObject(fields) =>
      && v.Table? && v.ref < |h| && h[v.ref].part == []
      && var entries := h[v.ref].entries;
         && NamesFields(Names(entries), fields, {})
         && forall k: nat :: k < |entries| ==>
              entries[k].0.Name? && entries[k].0.s in fields && Represents(h, entries[k].1, fields[entries[k].0.s])
  }

  lemma {:induction false} RepresentsGrows(h: Heap, g: Heap, v: Value, j: JSON)
    requires h <= g && Represents(h, v, j)
    ensures Represents(g, v, j)
    decreases j
  {
    if j.JArray? {
      forall k: nat | k < |j.items| && !j.items[k].JNull?
        ensures Represents(g, g[v.ref].part[Kept(j.items, k)], j.items[k])
      {
        RepresentsGrows(h, g, h[v.ref].part[Kept(j.items, k)], j.items[k]);
      }
    } else if j.JObject? {
      var entries := h[v.ref].entries;
      forall k: nat | k < |entries|
        ensures Represents(g, entries[k].1, j.fields[entries[k].0.s])
      {
        RepresentsGrows(h, g, entries[k].1, j.fields[entries[k].0.s]);
      }
    }
  }

  lemma RepresentsNil(h: Heap, v: Value, j: JSON)
    requires Represents(h, v, j)
    ensures v == Nil <==> j == JNull
  {
  }

  /** Appending to a table's array part; nil is not appended. */
  function Append(part: seq<Value>, v: Value): seq<Value> {
    if v == Nil then part else part + [v]
  }

  /** Item `k`, unless it is null, has its value in its place in `part`. */
  ghost predicate HasItem(h: Heap, part: seq<Value>, items: seq<JSON>, k: nat)
    requires k < |items|
  {
    items[k].JNull? || (Kept(items, k) < |part| && Represents(h, part[Kept(items, k)], items[k]))
  }

  /** The first `n` items have been appended to `part`. */
  ghost predicate Appended(h: Heap, part: seq<Value>, items: seq<JSON>, n: nat) {
    n <= |items| && |part| == Kept(items, n) && forall k: nat :: k < n ==> HasItem(h, part, items, k)
  }

  lemma ItemStays(h: Heap, g: Heap, part: seq<Value>, items: seq<JSON>, k: nat, v: Value)
    requires k < |items| && h <= g && HasItem(h, part, items, k)
    ensures HasItem(g, Append(part, v), items, k)
  {
    if !items[k].JNull? {
      RepresentsGrows(h, g, part[Kept(items, k)], items[k]);
    }
  }

  lemma AppendOne(h: Heap, g: Heap, part: seq<Value>, items: seq<JSON>, n: nat, v: Value)
    requires Appended(h, part, items, n) && n < |items| && h <= g && Represents(g, v, items[n])
    ensures Appended(g, Append(part, v), items, n + 1)
  {
    RepresentsNil(g, v, items[n]);
    forall k: nat | k < n
      ensures HasItem(g, Append(part, v), items, k)
    {
      ItemStays(h, g, part, items, k, v);
    }
    assert HasItem(g, Append(part, v), items, n);
  }

  /** Entry `k` holds the value of the field it names. */
  ghost predicate HasField(h: Heap, entries: seq<(Key, Value)>, fields: map<string, JSON>, k: nat)
    requires k < |entries|
  {
    entries[k].0.Name? && entries[k].0.s in fields && Represents(h, entries[k].1, fields[entries[k].0.s])
  }

  /** The fields not in `todo` have been set. */
  ghost predicate FieldsSet(h: Heap, entries: seq<(Key, Value)>, fields: map<string, JSON>, todo: set<string>) {
    NamesFields(Names(entries), fields, todo) && forall k: nat :: k < |entries| ==> HasField(h, entries, fields, k)
  }

  /** Setting a field that is not there yet; nil sets nothing. */
  function Set(entries: seq<(Key, Value)>, name: string, v: Value): seq<(Key, Value)> {
    if v == Nil then entries else entries + [(Name(name), v)]
  }

  lemma NameOne(names: seq<Key>, fields: map<string, JSON>, todo: set<string>, name: string)
    requires NamesFields(names, fields, todo) && name in todo && name in fields
    ensures NamesFields(if fields[name].JNull? then names else names + [Name(name)], fields, todo - {name})
  {
  }

  lemma SetOne(h: Heap, g: Heap, entries: seq<(Key, Value)>, fields: map<string, JSON>, todo: set<string>, name: string, v: Value)
    requires FieldsSet(h, entries, fields, todo) && name in todo && name in fields && h <= g && Represents(g, v, fields[name])
    ensures FieldsSet(g, Set(entries, name, v), fields, todo - {name})
  {
    RepresentsNil(g, v, fields[name]);
    NameOne(Names(entries), fields, todo, name);
    var next := Set(entries, name, v);
    assert Names(next) == if fields[name].JNull? then Names(entries) else Names(entries) + [Name(name)];
    forall k: nat | k < |next|
      ensures HasField(g, next, fields, k)
    {
      if k < |entries| {
        FieldStays(h, g, entries, fields, k);
      }
    }
  }

  lemma FieldStays(h: Heap, g: Heap, entries: seq<(Key, Value)>, fields: map<string, JSON>, k: nat)
    requires k < |entries| && h <= g && HasField(h, entries, fields, k)
    ensures HasField(g, entries, fields, k)
  {
    RepresentsGrows(h, g, entries[k].1, fields[entries[k].0.s]);
  }

  /** Builds fresh Lua values. */
  method ToLua(h: Heap, j: JSON) returns (g: Heap, v: Value)
    ensures h <= g && Represents(g, v, j)
    decreases j, 1
  {
    g := h;
    match j
    case JNull => v := Nil;
    case JBool(b) => v := Bool(b);
    case JNumber(x) => v := Num(Finite(x));
    case JString(s) => v := Str(s);
    case JArray(items) =>
      var part;
      g, part := ItemsToLua(h, j);
      v := Table(|g|);
      AppendedIsArray(g, part, items);
      g := g + [Contents(part, [])];
    case JObject(fields) =>
      var entries;
      g, entries := FieldsToLua(h, j);
      v := Table(|g|);
      SetIsObject(g, entries, fields);
      g := g + [Contents([], entries)];
  }

  method ItemsToLua(h: Heap, j: JSON) returns (g: Heap, part: seq<Value>)
    requires j.JArray?
    ensures h <= g && Appended(g, part, j.items, |j.items|)
    decreases j, 0
  {
    g, part := h, [];
    for n := 0 to |j.items|
      invariant h <= g && Appended(g, part, j.items, n)
    {
      var next, element := ToLua(g, j.items[n]);
      AppendOne(g, next, part, j.items, n, element);
      g := next;
      part := Append(part, element);
    }
  }

  /** The order in which an object's fields are set is left open. */
  method FieldsToLua(h: Heap, j: JSON) returns (g: Heap, entries: seq<(Key, Value)>)
    requires j.JObject?
    ensures h <= g && FieldsSet(g, entries, j.fields, {})
    decreases j, 0
  {
    g, entries := h, [];
    var todo := j.fields.Keys;
    while todo != {}
      invariant h <= g && todo <= j.fields.Keys && FieldsSet(g, entries, j.fields, todo)
      decreases |todo|
    {
      var name :| name in todo;
      var next, element := ToLua(g, j.fields[name]);
      SetOne(g, next, entries, j.fields, todo, name, element);
      g := next;
      entries := Set(entries, name, element);
      todo := todo - {name};
    }
  }

  lemma AppendedIsArray(h: Heap, part: seq<Value>, items: seq<JSON>)
    requires Appended(h, part, items, |items|)
    ensures Represents(h + [Contents(part, [])], Table(|h|), JArray(items))
  {
    var g := h + [Contents(part, [])];
    forall k: nat | k < |items| && !items[k].JNull?
      ensures Kept(items, k) < |part| && Represents(g, part[Kept(items, k)], items[k])
    {
      assert HasItem(h, part, items, k);
      RepresentsGrows(h, g, part[Kept(items, k)], items[k]);
    }
  }

  lemma SetIsObject(h: Heap, entries: seq<(Key, Value)>, fields: map<string, JSON>)
    requires FieldsSet(h, entries, fields, {})
    ensures Represents(h + [Contents([], entries)], Table(|h|), JObject(fields))
  {
    var g := h + [Contents([], entries)];
    assert g[|h|] == Contents([], entries);
    forall k: nat | k < |entries|
      ensures entries[k].0.Name? && entries[k].0.s in fields && Represents(g, entries[k].1, fields[entries[k].0.s])
    {
      FieldStays(h, g, entries, fields, k);
      assert HasField(g, entries, fields, k);
    }
  }
}
