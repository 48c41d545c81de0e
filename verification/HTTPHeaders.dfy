/** Alamofire's HTTPHeaders: an array of headers that is an ordered map from case-insensitive names. */
module HTTPHeaders {
  import opened Wrappers

  datatype HTTPHeader = HTTPHeader(name: string, value: string)

  // ----- Ordered maps -----

  /** Keys in the order in which they were first set, and what they are set to. */
  datatype OrderedMap = OrderedMap(order: seq<string>, entries: map<string, HTTPHeader>)

  const EMPTY := OrderedMap([], map[])

  function Set(m: OrderedMap, key: string, h: HTTPHeader): OrderedMap {
    OrderedMap(if key in m.order then m.order else m.order + [key], m.entries[key := h])
  }

  function Without(order: seq<string>, key: string): seq<string> {
    if order == [] then []
    else if order[0] == key then Without(order[1..], key)
    else [order[0]] + Without(order[1..], key)
  }

  function Unset(m: OrderedMap, key: string): OrderedMap {
    OrderedMap(Without(m.order, key), m.entries - {key})
  }

  function Lookup(m: OrderedMap, key: string): Option<HTTPHeader> {
    if key in m.entries then Some(m.entries[key]) else None
  }

  // ----- Arrays of headers -----

  predicate Unique(lower: string -> string, hs: seq<HTTPHeader>) {
    forall i, j | 0 <= i < j < |hs| :: lower(hs[i].name) != lower(hs[j].name)
  }

  function Keys(lower: string -> string, hs: seq<HTTPHeader>): (keys: seq<string>)
    ensures |keys| == |hs| && forall i | 0 <= i < |hs| :: keys[i] == lower(hs[i].name)
  {
    seq(|hs|, i requires 0 <= i < |hs| => lower(hs[i].name))
  }

  function Entries(lower: string -> string, hs: seq<HTTPHeader>): map<string, HTTPHeader> {
    if hs == [] then map[]
    else
      var h := hs[|hs| - 1];
      Entries(lower, hs[..|hs| - 1])[lower(h.name) := h]
  }

  /** The map that an array of headers stands for. */
  function Model(lower: string -> string, hs: seq<HTTPHeader>): OrderedMap {
    OrderedMap(Keys(lower, hs), Entries(lower, hs))
  }

  lemma {:induction false} EntriesKeys(lower: string -> string, hs: seq<HTTPHeader>, key: string)
    ensures key in Entries(lower, hs) <==> key in Keys(lower, hs)
  {
    if hs != [] {
      var n := |hs| - 1;
      EntriesKeys(lower, hs[..n], key);
      assert Keys(lower, hs) == Keys(lower, hs[..n]) + [lower(hs[n].name)];
    }
  }

  /** An array without duplicate names holds exactly the entries of its map. */
  lemma {:induction false} EntriesAt(lower: string -> string, hs: seq<HTTPHeader>, i: nat)
    requires Unique(lower, hs) && i < |hs|
    ensures lower(hs[i].name) in Entries(lower, hs) && Entries(lower, hs)[lower(hs[i].name)] == hs[i]
  {
    if i < |hs| - 1 {
      EntriesAt(lower, hs[..|hs| - 1], i);
    }
  }

  /** index(of:), the first header with the name. */
  function IndexOf(lower: string -> string, hs: seq<HTTPHeader>, name: string): (i: Option<nat>)
    ensures i.Some? ==> i.value < |hs| && lower(hs[i.value].name) == lower(name)
    ensures i.Some? ==> forall j | 0 <= j < i.value :: lower(hs[j].name) != lower(name)
    ensures i.None? ==> lower(name) !in Keys(lower, hs)
  {
    if hs == [] then None
    else if lower(hs[0].name) == lower(name) then Some(0)
    else
      var i := IndexOf(lower, hs[1..], name);
      if i.None? then
        assert forall j | 0 < j < |hs| :: Keys(lower, hs)[j] == Keys(lower, hs[1..])[j - 1];
        None
      else Some(i.value + 1)
  }

  // ----- The operations on arrays -----

  lemma AppendSets(lower: string -> string, hs: seq<HTTPHeader>, h: HTTPHeader)
    requires Unique(lower, hs) && IndexOf(lower, hs, h.name).None?
    ensures Unique(lower, hs + [h]) && Model(lower, hs + [h]) == Set(Model(lower, hs), lower(h.name), h)
  {
    forall i | 0 <= i < |hs| ensures lower(hs[i].name) != lower(h.name) {
      assert Keys(lower, hs)[i] in Keys(lower, hs);
    }
    assert Keys(lower, hs + [h]) == Keys(lower, hs) + [lower(h.name)];
    assert (hs + [h])[..|hs|] == hs;
  }

  lemma ReplaceSets(lower: string -> string, hs: seq<HTTPHeader>, i: nat, h: HTTPHeader)
    requires Unique(lower, hs) && i < |hs| && lower(hs[i].name) == lower(h.name)
    ensures Unique(lower, hs[i := h]) && Model(lower, hs[i := h]) == Set(Model(lower, hs), lower(h.name), h)
  {
    assert Keys(lower, hs[i := h]) == Keys(lower, hs) && Keys(lower, hs)[i] == lower(h.name);
    ReplaceEntry(lower, hs, i, h);
  }

  lemma {:induction false} ReplaceEntry(lower: string -> string, hs: seq<HTTPHeader>, i: nat, h: HTTPHeader)
    requires Unique(lower, hs) && i < |hs| && lower(hs[i].name) == lower(h.name)
    ensures Entries(lower, hs[i := h]) == Entries(lower, hs)[lower(h.name) := h]
  {
    var n := |hs| - 1;
    if i == n {
      assert hs[i := h][..n] == hs[..n];
    } else {
      assert hs[i := h][..n] == hs[..n][i := h];
      ReplaceEntry(lower, hs[..n], i, h);
      assert lower(hs[n].name) != lower(h.name);
    }
  }

  lemma {:induction false} WithoutAt(order: seq<string>, i: nat)
    requires i < |order| && forall j, k | 0 <= j < k < |order| :: order[j] != order[k]
    ensures Without(order, order[i]) == order[..i] + order[i + 1..]
  {
    if i == 0 {
      WithoutNone(order[1..], order[0]);
      assert order[..0] + order[1..] == order[1..];
    } else {
      WithoutAt(order[1..], i - 1);
      assert order[1..][..i - 1] == order[1..i] && order[1..][i..] == order[i + 1..];
      assert [order[0]] + order[1..i] == order[..i];
    }
  }

  lemma {:induction false} WithoutNone(order: seq<string>, key: string)
    requires key !in order
    ensures Without(order, key) == order
  {
    if order != [] {
      WithoutNone(order[1..], key);
    }
  }

  lemma RemoveUnsets(lower: string -> string, hs: seq<HTTPHeader>, i: nat)
    requires Unique(lower, hs) && i < |hs|
    ensures Unique(lower, hs[..i] + hs[i + 1..])
    ensures Model(lower, hs[..i] + hs[i + 1..]) == Unset(Model(lower, hs), lower(hs[i].name))
  {
    var rest := hs[..i] + hs[i + 1..];
    assert forall j | 0 <= j < |rest| :: rest[j] == hs[if j < i then j else j + 1];
    WithoutAt(Keys(lower, hs), i);
    assert Keys(lower, rest) == Keys(lower, hs)[..i] + Keys(lower, hs)[i + 1..];
    RemoveEntry(lower, hs, i);
  }

  lemma {:induction false} RemoveEntry(lower: string -> string, hs: seq<HTTPHeader>, i: nat)
    requires Unique(lower, hs) && i < |hs|
    ensures Entries(lower, hs[..i] + hs[i + 1..]) == Entries(lower, hs) - {lower(hs[i].name)}
  {
    var n, rest := |hs| - 1, hs[..i] + hs[i + 1..];
    if i == n {
      assert rest == hs[..n];
      EntriesKeys(lower, hs[..n], lower(hs[n].name));
      SetUnset(Entries(lower, hs[..n]), lower(hs[n].name), hs[n]);
    } else {
      var before := hs[..n][..i] + hs[..n][i + 1..];
      assert rest == before + [hs[n]];
      assert rest[..|rest| - 1] == before;
      RemoveEntry(lower, hs[..n], i);
      Commute(Entries(lower, hs[..n]), lower(hs[n].name), hs[n], lower(hs[i].name));
    }
  }

  lemma SetUnset(m: map<string, HTTPHeader>, key: string, h: HTTPHeader)
    requires key !in m
    ensures m[key := h] - {key} == m
  {}

  lemma Commute(m: map<string, HTTPHeader>, key: string, h: HTTPHeader, other: string)
    requires key != other
    ensures (m - {other})[key := h] == m[key := h] - {other}
  {}

  // ----- Sorting -----

  ghost predicate StrictOrder(less: (string, string) -> bool) {
    && (forall a, b :: a != b ==> (less(a, b) <==> !less(b, a)))
    && (forall a :: !less(a, a))
    && (forall a, b, c :: less(a, b) && less(b, c) ==> less(a, c))
  }

  predicate Sorted(lower: string -> string, less: (string, string) -> bool, hs: seq<HTTPHeader>) {
    forall i, j | 0 <= i < j < |hs| :: less(lower(hs[i].name), lower(hs[j].name))
  }

  /** The sort of the standard library, for names that are all different. */
  function SortBy(lower: string -> string, less: (string, string) -> bool, hs: seq<HTTPHeader>): seq<HTTPHeader> {
    if hs == [] then [] else Insert(lower, less, SortBy(lower, less, hs[1..]), hs[0])
  }

  function Insert(lower: string -> string, less: (string, string) -> bool, hs: seq<HTTPHeader>,
                  h: HTTPHeader): seq<HTTPHeader> {
    if hs == [] || less(lower(h.name), lower(hs[0].name)) then [h] + hs
    else [hs[0]] + Insert(lower, less, hs[1..], h)
  }

  lemma {:induction false} InsertPermutes(lower: string -> string, less: (string, string) -> bool, hs: seq<HTTPHeader>,
                                          h: HTTPHeader)
    ensures multiset(Insert(lower, less, hs, h)) == multiset(hs) + multiset{h}
  {
    if hs == [] || less(lower(h.name), lower(hs[0].name)) {
      assert multiset([h] + hs) == multiset([h]) + multiset(hs);
    } else {
      InsertPermutes(lower, less, hs[1..], h);
      assert hs == [hs[0]] + hs[1..];
    }
  }

  lemma {:induction false} InsertSorts(lower: string -> string, less: (string, string) -> bool, hs: seq<HTTPHeader>,
                                       h: HTTPHeader)
    requires StrictOrder(less) && Sorted(lower, less, hs) && forall x | x in hs :: lower(x.name) != lower(h.name)
    ensures Sorted(lower, less, Insert(lower, less, hs, h))
  {
    if hs == [] {
    } else if less(lower(h.name), lower(hs[0].name)) {
      forall x | x in hs ensures less(lower(h.name), lower(x.name)) {}
      SortedCons(lower, less, h, hs);
    } else {
      var t := Insert(lower, less, hs[1..], h);
      InsertSorts(lower, less, hs[1..], h);
      InsertPermutes(lower, less, hs[1..], h);
      assert less(lower(hs[0].name), lower(h.name)) by { assert hs[0] in hs; }
      forall x | x in t ensures less(lower(hs[0].name), lower(x.name)) {
        assert x in multiset(t);
      }
      SortedCons(lower, less, hs[0], t);
    }
  }

  lemma SortedCons(lower: string -> string, less: (string, string) -> bool, h: HTTPHeader, hs: seq<HTTPHeader>)
    requires Sorted(lower, less, hs) && forall x | x in hs :: less(lower(h.name), lower(x.name))
    ensures Sorted(lower, less, [h] + hs)
  {}

  lemma {:induction false} SortBySorts(lower: string -> string, less: (string, string) -> bool, hs: seq<HTTPHeader>)
    requires StrictOrder(less) && Unique(lower, hs)
    ensures multiset(SortBy(lower, less, hs)) == multiset(hs) && Sorted(lower, less, SortBy(lower, less, hs))
  {
    if hs != [] {
      var t := SortBy(lower, less, hs[1..]);
      SortBySorts(lower, less, hs[1..]);
      assert hs == [hs[0]] + hs[1..];
      forall x | x in t ensures lower(x.name) != lower(hs[0].name) {
        assert x in multiset(hs[1..]);
      }
      InsertSorts(lower, less, t, hs[0]);
      InsertPermutes(lower, less, t, hs[0]);
    }
  }

  lemma {:induction false} FirstIsLeast(lower: string -> string, less: (string, string) -> bool, s: seq<HTTPHeader>,
                                        x: HTTPHeader)
    requires Sorted(lower, less, s) && s != [] && x in s && x != s[0]
    ensures less(lower(s[0].name), lower(x.name))
  {}

  /** There is only one way to sort headers with different names. */
  lemma {:induction false} SortIsUnique(lower: string -> string, less: (string, string) -> bool, s: seq<HTTPHeader>,
                                        t: seq<HTTPHeader>)
    requires StrictOrder(less) && Sorted(lower, less, s) && Sorted(lower, less, t) && multiset(s) == multiset(t)
    ensures s == t
  {
    assert |s| == |multiset(s)| == |multiset(t)| == |t|;
    if s != [] {
      assert s[0] in multiset(t) && t[0] in multiset(s);
      if s[0] != t[0] {
        FirstIsLeast(lower, less, s, t[0]);
        FirstIsLeast(lower, less, t, s[0]);
        assert false;
      }
      Rest(s);
      Rest(t);
      SortIsUnique(lower, less, s[1..], t[1..]);
    }
  }

  lemma Rest(s: seq<HTTPHeader>)
    requires s != []
    ensures s == [s[0]] + s[1..] && multiset(s[1..]) == multiset(s) - multiset{s[0]}
  {
    assert s == [s[0]] + s[1..];
  }

  lemma {:induction false} SortedIsUnique(lower: string -> string, less: (string, string) -> bool, hs: seq<HTTPHeader>)
    requires StrictOrder(less) && Sorted(lower, less, hs)
    ensures Unique(lower, hs)
  {}

  /** The order of the headers does not matter to what their names are mapped to. */
  lemma {:induction false} SameEntries(lower: string -> string, s: seq<HTTPHeader>, t: seq<HTTPHeader>)
    requires Unique(lower, s) && Unique(lower, t) && multiset(s) == multiset(t)
    ensures Entries(lower, s) == Entries(lower, t)
  {
    forall key | key in Entries(lower, s)
      ensures key in Entries(lower, t) && Entries(lower, t)[key] == Entries(lower, s)[key]
    {
      SameEntry(lower, s, t, key);
    }
    forall key | key in Entries(lower, t) ensures key in Entries(lower, s) {
      SameEntry(lower, t, s, key);
    }
  }

  lemma {:induction false} SameEntry(lower: string -> string, s: seq<HTTPHeader>, t: seq<HTTPHeader>, key: string)
    requires Unique(lower, s) && Unique(lower, t) && multiset(s) == multiset(t) && key in Entries(lower, s)
    ensures key in Entries(lower, t) && Entries(lower, t)[key] == Entries(lower, s)[key]
  {
    EntriesKeys(lower, s, key);
    var i :| 0 <= i < |s| && Keys(lower, s)[i] == key;
    assert s[i] in multiset(t);
    var j :| 0 <= j < |t| && t[j] == s[i];
    EntriesAt(lower, s, i);
    EntriesAt(lower, t, j);
  }

  // ----- Operations on arrays -----

  /** update: in the place of the header with that name, or at the end. */
  function Updated(lower: string -> string, hs: seq<HTTPHeader>, h: HTTPHeader): seq<HTTPHeader> {
    var i := IndexOf(lower, hs, h.name);
    if i.None? then hs + [h] else hs[i.value := h]
  }

  function Removed(lower: string -> string, hs: seq<HTTPHeader>, name: string): seq<HTTPHeader> {
    var i := IndexOf(lower, hs, name);
    if i.None? then hs else hs[..i.value] + hs[i.value + 1..]
  }

  function HeaderOf(lower: string -> string, hs: seq<HTTPHeader>, name: string): Option<HTTPHeader> {
    var i := IndexOf(lower, hs, name);
    if i.None? then None else Some(hs[i.value])
  }

  function ValueOf(lower: string -> string, hs: seq<HTTPHeader>, name: string): Option<string> {
    ValueIn(HeaderOf(lower, hs, name))
  }

  function ValueIn(h: Option<HTTPHeader>): Option<string> {
    if h.None? then None else Some(h.value.value)
  }

  lemma UpdatedSets(lower: string -> string, hs: seq<HTTPHeader>, h: HTTPHeader)
    requires Unique(lower, hs)
    ensures Unique(lower, Updated(lower, hs, h))
    ensures Model(lower, Updated(lower, hs, h)) == Set(Model(lower, hs), lower(h.name), h)
  {
    var i := IndexOf(lower, hs, h.name);
    if i.None? {
      AppendSets(lower, hs, h);
    } else {
      ReplaceSets(lower, hs, i.value, h);
    }
  }

  lemma RemovedUnsets(lower: string -> string, hs: seq<HTTPHeader>, name: string)
    requires Unique(lower, hs)
    ensures Unique(lower, Removed(lower, hs, name))
    ensures Model(lower, Removed(lower, hs, name)) == Unset(Model(lower, hs), lower(name))
  {
    var i := IndexOf(lower, hs, name);
    if i.None? {
      EntriesKeys(lower, hs, lower(name));
      NothingToUnset(Model(lower, hs), lower(name));
    } else {
      RemoveUnsets(lower, hs, i.value);
    }
  }

  lemma NothingToUnset(m: OrderedMap, key: string)
    requires key !in m.order && (key in m.entries ==> key in m.order)
    ensures Unset(m, key) == m
  {
    WithoutNone(m.order, key);
  }

  /** Looking an array up is looking its map up. */
  lemma HeaderIsLookup(lower: string -> string, hs: seq<HTTPHeader>, name: string)
    requires Unique(lower, hs)
    ensures HeaderOf(lower, hs, name) == Lookup(Model(lower, hs), lower(name))
  {
    var i := IndexOf(lower, hs, name);
    if i.None? {
      EntriesKeys(lower, hs, lower(name));
    } else {
      EntriesAt(lower, hs, i.value);
    }
  }

  lemma SortByKeeps(lower: string -> string, less: (string, string) -> bool, hs: seq<HTTPHeader>)
    requires StrictOrder(less) && Unique(lower, hs)
    ensures Unique(lower, SortBy(lower, less, hs))
    ensures Model(lower, SortBy(lower, less, hs)).entries == Model(lower, hs).entries
  {
    SortBySorts(lower, less, hs);
    SortedIsUnique(lower, less, SortBy(lower, less, hs));
    SameEntries(lower, SortBy(lower, less, hs), hs);
  }

  // ----- Sequences of operations -----

  datatype Operation = Update(h: HTTPHeader) | Remove(name: string) | Sort(less: (string, string) -> bool)

  ghost predicate Orders(ops: seq<Operation>) {
    forall k | 0 <= k < |ops| :: ops[k].Sort? ==> StrictOrder(ops[k].less)
  }

  function After(lower: string -> string, hs: seq<HTTPHeader>, op: Operation): seq<HTTPHeader> {
    match op
    case Update(h) => Updated(lower, hs, h)
    case Remove(name) => Removed(lower, hs, name)
    case Sort(less) => SortBy(lower, less, hs)
  }

  function AfterAll(lower: string -> string, hs: seq<HTTPHeader>, ops: seq<Operation>): seq<HTTPHeader> {
    if ops == [] then hs else After(lower, AfterAll(lower, hs, ops[..|ops| - 1]), ops[|ops| - 1])
  }

  function Updates(hs: seq<HTTPHeader>): seq<Operation> {
    seq(|hs|, i requires 0 <= i < |hs| => Operation.Update(hs[i]))
  }

  /** The header that a name was last set to, unless it has been removed since; or what it was at first. */
  function LastSet(lower: string -> string, ops: seq<Operation>, key: string, first: Option<HTTPHeader>)
    : Option<HTTPHeader>
  {
    if ops == [] then first
    else
      var before := ops[..|ops| - 1];
      match ops[|ops| - 1]
      case Update(h) => if lower(h.name) == key then Some(h) else LastSet(lower, before, key, first)
      case Remove(name) => if lower(name) == key then None else LastSet(lower, before, key, first)
      case Sort(_) => LastSet(lower, before, key, first)
  }

  lemma {:induction false} AfterHeader(lower: string -> string, hs: seq<HTTPHeader>, op: Operation, name: string)
    requires Unique(lower, hs) && (op.Sort? ==> StrictOrder(op.less))
    ensures Unique(lower, After(lower, hs, op))
    ensures HeaderOf(lower, After(lower, hs, op), name) == LastSet(lower, [op], lower(name), HeaderOf(lower, hs, name))
  {
    match op {
      case Update(h) => UpdatedSets(lower, hs, h);
      case Remove(n) => RemovedUnsets(lower, hs, n);
      case Sort(less) => SortByKeeps(lower, less, hs);
    }
    HeaderIsLookup(lower, hs, name);
    HeaderIsLookup(lower, After(lower, hs, op), name);
    assert [op][..0] == [];
  }

  /** After any sequence of updates, removals and sorts no two headers of the array have the same name, and looking a
      name up in the array finds the header it was last set to since it was last removed, and gives its value. */
  lemma {:induction false} ValueIsLastSet(lower: string -> string, hs: seq<HTTPHeader>, ops: seq<Operation>,
                                          name: string)
    requires Unique(lower, hs) && Orders(ops)
    ensures Unique(lower, AfterAll(lower, hs, ops))
    ensures var last := LastSet(lower, ops, lower(name), HeaderOf(lower, hs, name));
            HeaderOf(lower, AfterAll(lower, hs, ops), name) == last
            && ValueOf(lower, AfterAll(lower, hs, ops), name) == ValueIn(last)
  {
    if ops != [] {
      var before, op := ops[..|ops| - 1], ops[|ops| - 1];
      ValueIsLastSet(lower, hs, before, name);
      AfterHeader(lower, AfterAll(lower, hs, before), op, name);
      assert [op][..0] == [];
    }
  }

  // ----- The order of the headers -----

  /** When the name with this key was set without being there: at first, or by the operation with that number. */
  function Birth(lower: string -> string, hs: seq<HTTPHeader>, ops: seq<Operation>, key: string): nat {
    if ops == [] then KeyIndex(Keys(lower, hs), key)
    else
      var before, op := ops[..|ops| - 1], ops[|ops| - 1];
      if op.Update? && lower(op.h.name) == key && !Alive(lower, hs, before, key) then |hs| + |before|
      else Birth(lower, hs, before, key)
  }

  /** The name was set and has not been removed since. */
  predicate Alive(lower: string -> string, hs: seq<HTTPHeader>, ops: seq<Operation>, key: string) {
    if ops == [] then key in Keys(lower, hs)
    else
      var before := ops[..|ops| - 1];
      match ops[|ops| - 1]
      case Update(h) => lower(h.name) == key || Alive(lower, hs, before, key)
      case Remove(name) => lower(name) != key && Alive(lower, hs, before, key)
      case Sort(_) => Alive(lower, hs, before, key)
  }

  function KeyIndex(keys: seq<string>, key: string): nat {
    if keys == [] || keys[0] == key then 0 else 1 + KeyIndex(keys[1..], key)
  }

  lemma {:induction false} KeyIndexAt(keys: seq<string>, i: nat)
    requires i < |keys| && forall j | 0 <= j < i :: keys[j] != keys[i]
    ensures KeyIndex(keys, keys[i]) == i
  {
    if i > 0 {
      assert keys[1..][i - 1] == keys[i];
      KeyIndexAt(keys[1..], i - 1);
    }
  }

  predicate NoSort(ops: seq<Operation>) {
    forall k | 0 <= k < |ops| :: !ops[k].Sort?
  }

  function Births(lower: string -> string, hs: seq<HTTPHeader>, ops: seq<Operation>,
                  now: seq<HTTPHeader>): (births: seq<int>)
    ensures |births| == |now|
  {
    seq(|now|, i requires 0 <= i < |now| => Birth(lower, hs, ops, lower(now[i].name)))
  }

  predicate Ascending(s: seq<int>, bound: nat) {
    (forall i | 0 <= i < |s| :: s[i] < bound) && forall i, j | 0 <= i < j < |s| :: s[i] < s[j]
  }

  /** The headers stand in the order in which their names were set. */
  predicate ByBirth(lower: string -> string, hs: seq<HTTPHeader>, ops: seq<Operation>, now: seq<HTTPHeader>) {
    Ascending(Births(lower, hs, ops, now), |hs| + |ops|)
  }

  lemma {:induction false} AliveIsThere(lower: string -> string, hs: seq<HTTPHeader>, ops: seq<Operation>, key: string)
    requires Unique(lower, hs) && Orders(ops)
    ensures Unique(lower, AfterAll(lower, hs, ops))
    ensures Alive(lower, hs, ops, key) <==> key in Keys(lower, AfterAll(lower, hs, ops))
  {
    if ops != [] {
      var before, op := ops[..|ops| - 1], ops[|ops| - 1];
      var now := AfterAll(lower, hs, before);
      AliveIsThere(lower, hs, before, key);
      EntriesKeys(lower, now, key);
      EntriesKeys(lower, After(lower, now, op), key);
      match op
      case Update(h) => UpdatedSets(lower, now, h);
      case Remove(name) => RemovedUnsets(lower, now, name);
      case Sort(less) => SortByKeeps(lower, less, now);
    }
  }

  /** Over a whole sequence without sorts the order is kept: names stand in the order in which they were set, those
      that were there at first in their old order before the new ones. */
  lemma {:induction false} OrderIsKept(lower: string -> string, hs: seq<HTTPHeader>, ops: seq<Operation>)
    requires Unique(lower, hs) && NoSort(ops)
    ensures ByBirth(lower, hs, ops, AfterAll(lower, hs, ops))
  {
    if ops == [] {
      forall i | 0 <= i < |hs| ensures Birth(lower, hs, ops, lower(hs[i].name)) == i {
        KeyIndexAt(Keys(lower, hs), i);
      }
    } else {
      var before := ops[..|ops| - 1];
      OrderIsKept(lower, hs, before);
      ValueIsLastSet(lower, hs, before, "");
      OrderStep(lower, hs, ops, AfterAll(lower, hs, before));
    }
  }

  /** An operation changes no birth of a name that stays. */
  lemma {:induction false} BirthKept(lower: string -> string, hs: seq<HTTPHeader>, ops: seq<Operation>,
                                     now: seq<HTTPHeader>)
    requires Unique(lower, hs) && Orders(ops) && ops != [] && now == AfterAll(lower, hs, ops[..|ops| - 1])
    ensures Births(lower, hs, ops, now) == Births(lower, hs, ops[..|ops| - 1], now)
  {
    forall i | 0 <= i < |now|
      ensures Birth(lower, hs, ops, lower(now[i].name)) == Birth(lower, hs, ops[..|ops| - 1], lower(now[i].name))
    {
      AliveIsThere(lower, hs, ops[..|ops| - 1], lower(now[i].name));
      assert Keys(lower, now)[i] in Keys(lower, now);
    }
  }

  lemma {:induction false} OrderStep(lower: string -> string, hs: seq<HTTPHeader>, ops: seq<Operation>,
                                     now: seq<HTTPHeader>)
    requires Unique(lower, hs) && NoSort(ops) && ops != [] && Unique(lower, now)
    requires now == AfterAll(lower, hs, ops[..|ops| - 1]) && ByBirth(lower, hs, ops[..|ops| - 1], now)
    ensures ByBirth(lower, hs, ops, After(lower, now, ops[|ops| - 1]))
  {
    BirthKept(lower, hs, ops, now);
    match ops[|ops| - 1]
    case Update(h) => UpdateOrder(lower, hs, ops, now, h);
    case Remove(name) => RemoveOrder(lower, hs, ops, now, name);
  }

  lemma {:induction false} UpdateOrder(lower: string -> string, hs: seq<HTTPHeader>, ops: seq<Operation>,
                                       now: seq<HTTPHeader>, h: HTTPHeader)
    requires Unique(lower, hs) && Orders(ops) && ops != [] && ops[|ops| - 1] == Operation.Update(h)
    requires now == AfterAll(lower, hs, ops[..|ops| - 1]) && Ascending(Births(lower, hs, ops, now), |hs| + |ops| - 1)
    ensures ByBirth(lower, hs, ops, Updated(lower, now, h))
  {
    var i := IndexOf(lower, now, h.name);
    if i.None? {
      AliveIsThere(lower, hs, ops[..|ops| - 1], lower(h.name));
      assert Birth(lower, hs, ops, lower(h.name)) == |hs| + |ops| - 1;
      assert Births(lower, hs, ops, now + [h]) == Births(lower, hs, ops, now) + [|hs| + |ops| - 1];
    } else {
      assert Births(lower, hs, ops, now[i.value := h]) == Births(lower, hs, ops, now);
    }
  }

  lemma {:induction false} RemoveOrder(lower: string -> string, hs: seq<HTTPHeader>, ops: seq<Operation>,
                                       now: seq<HTTPHeader>, name: string)
    requires Ascending(Births(lower, hs, ops, now), |hs| + |ops|)
    ensures ByBirth(lower, hs, ops, Removed(lower, now, name))
  {
    var i := IndexOf(lower, now, name);
    if i.Some? {
      RemoveOrderAt(lower, hs, ops, now, i.value);
    }
  }

  lemma RemoveOrderAt(lower: string -> string, hs: seq<HTTPHeader>, ops: seq<Operation>, now: seq<HTTPHeader>, i: nat)
    requires i < |now| && ByBirth(lower, hs, ops, now)
    ensures ByBirth(lower, hs, ops, now[..i] + now[i + 1..])
  {
    var births, after := Births(lower, hs, ops, now), Births(lower, hs, ops, now[..i] + now[i + 1..]);
    assert after == births[..i] + births[i + 1..] by { BirthsWithout(lower, hs, ops, now, i); }
    AscendingWithout(births, i, |hs| + |ops|);
  }

  lemma BirthsWithout(lower: string -> string, hs: seq<HTTPHeader>, ops: seq<Operation>, now: seq<HTTPHeader>, i: nat)
    requires i < |now|
    ensures Births(lower, hs, ops, now[..i] + now[i + 1..])
         == Births(lower, hs, ops, now)[..i] + Births(lower, hs, ops, now)[i + 1..]
  {}

  lemma AscendingWithout(s: seq<int>, i: nat, bound: nat)
    requires Ascending(s, bound) && i < |s|
    ensures Ascending(s[..i] + s[i + 1..], bound)
  {
    var t := s[..i] + s[i + 1..];
    assert forall k | 0 <= k < |t| :: t[k] == s[if k < i then k else k + 1];
  }

  lemma AfterAllNext(lower: string -> string, hs: seq<HTTPHeader>, ops: seq<Operation>, i: nat)
    requires i < |ops|
    ensures AfterAll(lower, hs, ops[..i + 1]) == After(lower, AfterAll(lower, hs, ops[..i]), ops[i])
  {
    assert ops[..i + 1][..i] == ops[..i];
  }

  /** What a whole sequence of operations comes to. */
  ghost predicate Outcome(lower: string -> string, hs: seq<HTTPHeader>, ops: seq<Operation>, now: seq<HTTPHeader>) {
    && now == AfterAll(lower, hs, ops)
    && (forall name :: HeaderOf(lower, now, name) == LastSet(lower, ops, lower(name), HeaderOf(lower, hs, name)))
    && (NoSort(ops) ==> ByBirth(lower, hs, ops, now))
  }

  lemma OutcomeOf(lower: string -> string, hs: seq<HTTPHeader>, ops: seq<Operation>)
    requires Unique(lower, hs) && Orders(ops)
    ensures Outcome(lower, hs, ops, AfterAll(lower, hs, ops))
  {
    forall name
      ensures HeaderOf(lower, AfterAll(lower, hs, ops), name)
              == LastSet(lower, ops, lower(name), HeaderOf(lower, hs, name))
    {
      ValueIsLastSet(lower, hs, ops, name);
    }
    if NoSort(ops) {
      OrderIsKept(lower, hs, ops);
    }
  }

  // ----- The type -----

  class Headers {
    const lower: string -> string
    var headers: seq<HTTPHeader>

    ghost predicate Valid()
      reads this
    {
      Unique(lower, headers)
    }

    ghost function Contents(): OrderedMap
      reads this
    {
      Model(lower, headers)
    }

    /** An empty instance. */
    constructor (lower: string -> string)
      ensures this.lower == lower && Valid() && headers == [] && Contents() == EMPTY
    {
      this.lower := lower;
      headers := [];
    }

    /** update and add: a header of that name is replaced in its place, a new one goes to the end. */
    method Update(h: HTTPHeader)
      requires Valid()
      modifies this
      ensures Valid() && headers == Updated(lower, old(headers), h)
      ensures Contents() == Set(old(Contents()), lower(h.name), h)
    {
      UpdatedSets(lower, headers, h);
      var index := IndexOf(lower, headers, h.name);
      if index.None? {
        headers := headers + [h];
        return;
      }
      headers := headers[..index.value] + [h] + headers[index.value + 1..];
      assert headers == old(headers)[index.value := h];
    }

    method Remove(name: string)
      requires Valid()
      modifies this
      ensures Valid() && headers == Removed(lower, old(headers), name)
      ensures Contents() == Unset(old(Contents()), lower(name))
    {
      RemovedUnsets(lower, headers, name);
      var index := IndexOf(lower, headers, name);
      if index.None? {
        return;
      }
      headers := headers[..index.value] + headers[index.value + 1..];
    }

    /** sort: the same entries, in the one order in which their names ascend. */
    method Sort(less: (string, string) -> bool)
      requires Valid() && StrictOrder(less)
      modifies this
      ensures Valid() && headers == SortBy(lower, less, old(headers)) && Contents().entries == old(Contents()).entries
      ensures Sorted(lower, less, headers) && multiset(headers) == multiset(old(headers))
      ensures forall hs :: Sorted(lower, less, hs) && multiset(hs) == multiset(old(headers)) ==> hs == headers
    {
      SortBySorts(lower, less, headers);
      SortByKeeps(lower, less, headers);
      headers := SortBy(lower, less, headers);
      forall hs | Sorted(lower, less, hs) && multiset(hs) == multiset(old(headers)) ensures hs == headers {
        SortIsUnique(lower, less, hs, headers);
      }
    }

    /** value(for:). */
    method Value(name: string) returns (value: Option<string>)
      requires Valid()
      ensures value == ValueOf(lower, headers, name) == ValueIn(Lookup(Contents(), lower(name)))
    {
      HeaderIsLookup(lower, headers, name);
      var index := IndexOf(lower, headers, name);
      if index.None? {
        return None;
      }
      return Some(headers[index.value].value);
    }

    /** The subscript's setter. */
    method SetValue(name: string, value: Option<string>)
      requires Valid()
      modifies this
      ensures Valid()
      ensures Contents() == if value.Some? then Set(old(Contents()), lower(name), HTTPHeader(name, value.value))
                            else Unset(old(Contents()), lower(name))
    {
      if value.Some? {
        Update(HTTPHeader(name, value.value));
      } else {
        Remove(name);
      }
    }

    /** Any sequence of operations: every name has the value it was last set to, and without sorts the names stand in
        the order in which they were set. */
    method Perform(ops: seq<Operation>)
      requires Valid() && Orders(ops)
      modifies this
      ensures Valid() && Outcome(lower, old(headers), ops, headers)
    {
      ghost var hs := headers;
      for i := 0 to |ops|
        invariant Valid() && headers == AfterAll(lower, hs, ops[..i])
      {
        AfterAllNext(lower, hs, ops, i);
        match ops[i]
        case Update(h) => Update(h);
        case Remove(name) => Remove(name);
        case Sort(less) => Sort(less);
      }
      assert ops[..|ops|] == ops;
      OutcomeOf(lower, hs, ops);
    }

    /** The initializer from an array: the last of several headers with the same name wins, in the first one's place. */
    method UpdateAll(hs: seq<HTTPHeader>)
      requires Valid()
      modifies this
      ensures Valid() && Outcome(lower, old(headers), Updates(hs), headers)
    {
      ghost var before := headers;
      for i := 0 to |hs|
        invariant Valid() && headers == AfterAll(lower, before, Updates(hs)[..i])
      {
        AfterAllNext(lower, before, Updates(hs), i);
        Update(hs[i]);
      }
      assert Updates(hs)[..|hs|] == Updates(hs);
      OutcomeOf(lower, before, Updates(hs));
    }
  }
}
