/** Storage kept from one event for the next (recycling.rs): capacities under one budget. */
module Recycling {
  import opened Wrappers

  const MAX_RECORDS: nat := 128
  const MAX_STRING_BYTES: nat := 4096
  const MAX_RETAINED_BYTES: nat := 65536

  /** The capacities of an attribute's two strings. */
  datatype Texts = Texts(name: nat, value: nat)

  /** An attribute vector: its own capacity in records, and its strings. */
  datatype Attributes = Attributes(capacity: nat, texts: seq<Texts>)

  const NO_ATTRIBUTES := Attributes(0, [])

  function TextBytes(texts: seq<Texts>): nat {
    if texts == [] then 0 else TextBytes(texts[..|texts| - 1]) + texts[|texts| - 1].name + texts[|texts| - 1].value
  }

  function RecordBytes(capacity: nat, recordBytes: nat): nat { capacity * recordBytes }

  /** What an attribute vector really holds on to. */
  function Retained(attributes: Attributes, recordBytes: nat): nat {
    RecordBytes(attributes.capacity, recordBytes) + TextBytes(attributes.texts)
  }

  /** A string is kept only if it fits what is left. */
  function Keeps(capacity: nat, remaining: nat): nat {
    if capacity <= MAX_STRING_BYTES && capacity <= remaining then capacity else 0
  }

  lemma AppendText(texts: seq<Texts>, t: Texts)
    ensures TextBytes(texts + [t]) == TextBytes(texts) + t.name + t.value
  {
    assert (texts + [t])[..|texts|] == texts;
  }

  /** The retained names after one comes back, when other storage takes `taken` bytes. */
  function NamesAfter(a: nat, b: nat, capacity: nat, taken: nat): (nat, nat) {
    var (small, large) := InOrder(a, b);
    if small < capacity <= MAX_STRING_BYTES && capacity + large + taken <= MAX_RETAINED_BYTES then InOrder(capacity, large)
    else (small, large)
  }

  function InOrder(a: nat, b: nat): (nat, nat) { (Min(a, b), Max(a, b)) }

  /** The two slots after a name comes back: the first of the smallest gives way. */
  function SlotsAfter(names: (nat, nat), capacity: nat, taken: nat): (nat, nat) {
    var (small, large) := InOrder(names.0, names.1);
    if !(small < capacity <= MAX_STRING_BYTES && capacity + large + taken <= MAX_RETAINED_BYTES) then names
    else if names.1 < names.0 then (names.0, capacity)
    else (capacity, names.1)
  }

  /** The slot a name is taken from is the first that holds one. */
  function SlotsWithout(names: (nat, nat)): (nat, nat) {
    (0, if names.0 > 0 then names.1 else 0)
  }

  function FirstName(names: (nat, nat)): Option<nat> {
    if names.0 > 0 then Some(names.0) else if names.1 > 0 then Some(names.1) else None
  }

  /** The retained attributes after a vector comes back. */
  function AttributesAfter(held: Attributes, returned: Attributes, recordBytes: nat, taken: nat): Attributes {
    var records := RecordBytes(returned.capacity, recordBytes);
    if returned.capacity == 0 || returned.capacity > MAX_RECORDS || taken + records > MAX_RETAINED_BYTES then held
    else Attributes(returned.capacity, Kept(returned.texts, MAX_RETAINED_BYTES - taken - records))
  }

  class EventRecycling {
    const parserId: nat
    const recordBytes: nat
    var attributes: Attributes
    var attributeBytes: nat
    var adapterBytes: nat
    var name0: nat
    var name1: nat

    /** The recorded size is the real one, and everything retained shares one budget. */
    ghost predicate Valid()
      reads this
    {
      && attributeBytes == Retained(attributes, recordBytes) && attributes.capacity <= MAX_RECORDS
      && name0 <= MAX_STRING_BYTES && name1 <= MAX_STRING_BYTES
      && adapterBytes <= MAX_RETAINED_BYTES - 2 * MAX_STRING_BYTES
      && attributeBytes + adapterBytes + name0 + name1 <= MAX_RETAINED_BYTES
    }

    function Holds(): Storage
      reads this
    {
      Storage(attributes, adapterBytes, (name0, name1))
    }

    constructor (parserId: nat, recordBytes: nat)
      ensures Valid() && this.parserId == parserId && this.recordBytes == recordBytes && Holds() == EMPTY
    {
      this.parserId, this.recordBytes := parserId, recordBytes;
      attributes, attributeBytes, adapterBytes, name0, name1 := NO_ATTRIBUTES, 0, 0, 0, 0;
    }

    /** `reserve_adapter`: the arena may push the attributes out, never the names. */
    method ReserveAdapter(token: nat, bytes: nat)
      requires Valid() && token == parserId && bytes <= MAX_RETAINED_BYTES - 2 * MAX_STRING_BYTES
      modifies this`attributes, this`attributeBytes, this`adapterBytes
      ensures Valid() && adapterBytes == bytes
      ensures attributes == if old(attributeBytes) + bytes + name0 + name1 <= MAX_RETAINED_BYTES then old(attributes)
                            else NO_ATTRIBUTES
    {
      adapterBytes := bytes;
      var allowed: nat := MAX_RETAINED_BYTES - bytes;
      if attributeBytes + name0 + name1 > allowed {
        attributes, attributeBytes := NO_ATTRIBUTES, 0;
      }
    }

    method ReleaseAdapter(token: nat)
      requires Valid()
      modifies this`adapterBytes
      ensures Valid() && adapterBytes == if token == parserId then 0 else old(adapterBytes)
    {
      if token == parserId {
        adapterBytes := 0;
      }
    }

    /** `take` */
    method Take() returns (taken: Attributes)
      requires Valid()
      modifies this`attributes, this`attributeBytes
      ensures Valid() && taken == old(attributes) && attributes == NO_ATTRIBUTES
    {
      taken := attributes;
      attributes, attributeBytes := NO_ATTRIBUTES, 0;
    }

    /** `take_name`: the first retained name, if any. */
    method TakeName() returns (taken: Option<nat>)
      requires Valid()
      modifies this`name0, this`name1
      ensures Valid()
      ensures taken == FirstName(old((name0, name1))) && (name0, name1) == SlotsWithout(old((name0, name1)))
    {
      if name0 == 0 {
        if name1 == 0 {
          return None;
        }
        taken, name1 := Some(name1), 0;
      } else {
        taken, name0 := Some(name0), 0;
      }
    }

    /** `recycle_start`, `recycle_end` and `recycle`: whatever comes back from another parser is dropped. */
    method Recycle(token: nat, name: Option<nat>, returned: Option<Attributes>)
      requires Valid() && (returned.Some? ==> |returned.value.texts| <= returned.value.capacity)
      modifies this`attributes, this`attributeBytes, this`name0, this`name1
      ensures Valid()
      ensures token != parserId ==> unchanged(this)
      ensures token == parserId ==>
        && (name0, name1)
             == (if name.Some? then SlotsAfter(old((name0, name1)), name.value, old(attributeBytes) + adapterBytes)
                 else old((name0, name1)))
        && attributes
             == if returned.Some? then AttributesAfter(old(attributes), returned.value, recordBytes, adapterBytes + name0 + name1)
                else old(attributes)
    {
      if token != parserId {
        return;
      }
      if name.Some? {
        RetainName(name.value);
      }
      if returned.Some? {
        RetainAttributes(returned.value);
      }
    }

    /** One operation, and what it hands out. */
    method Perform(op: Operation) returns (handed: Handed)
      requires Valid() && Legal(parserId, op)
      modifies this
      ensures Valid() && Holds() == After(old(Holds()), parserId, recordBytes, op)
      ensures handed == Gives(old(Holds()), op)
    {
      hide Retained, AttributesAfter, SlotsAfter, SlotsWithout, FirstName;
      handed := Nothing;
      match op {
        case Reserve(token, bytes) => ReserveAdapter(token, bytes);
        case Release(token) => ReleaseAdapter(token);
        case TakeAttributes =>
          var taken := Take();
          handed := Vector(taken);
        case TakeAName =>
          var taken := TakeName();
          handed := NameOf(taken);
        case Return(token, name, attributes) => Recycle(token, name, attributes);
      }
    }

    /** `retain_name`: a larger name replaces the smaller one when it fits. */
    method RetainName(capacity: nat)
      requires Valid()
      modifies this`name0, this`name1
      ensures Valid()
      ensures (name0, name1) == SlotsAfter(old((name0, name1)), capacity, attributeBytes + adapterBytes)
      ensures InOrder(name0, name1) == NamesAfter(old(name0), old(name1), capacity, attributeBytes + adapterBytes)
    {
      var second := name1 < name0;
      var held, other := if second then name1 else name0, if second then name0 else name1;
      if capacity <= held || capacity > MAX_STRING_BYTES {
        return;
      }
      var afterAdapter: nat := MAX_RETAINED_BYTES - adapterBytes;
      var afterAttributes: nat := afterAdapter - attributeBytes;
      var remaining: nat := afterAttributes - other;
      if capacity <= remaining {
        if second {
          name1 := capacity;
        } else {
          name0 := capacity;
        }
      }
    }

    /** `retain_attributes`: every string that fits what is left is kept, the others are emptied. */
    method RetainAttributes(returned: Attributes)
      requires Valid() && |returned.texts| <= returned.capacity
      modifies this`attributes, this`attributeBytes
      ensures Valid()
      ensures attributes == AttributesAfter(old(attributes), returned, recordBytes, adapterBytes + name0 + name1)
    {
      if returned.capacity > MAX_RECORDS || returned.capacity == 0 {
        return;
      }
      var afterAdapter: nat := MAX_RETAINED_BYTES - adapterBytes;
      var afterFirst: nat := afterAdapter - name0;
      var budget: nat := afterFirst - name1;
      hide Kept, TextBytes, Keeps, RecordBytes;
      var records := RecordBytes(returned.capacity, recordBytes);
      if records > budget {
        return;
      }
      var kept, remaining := KeepTexts(returned.texts, budget - records);
      attributeBytes := budget - remaining;
      attributes := Attributes(returned.capacity, kept);
    }
  }

  /** The strings of a returned vector, in turn. */
  method KeepTexts(texts: seq<Texts>, room: nat) returns (kept: seq<Texts>, remaining: nat)
    ensures kept == Kept(texts, room) && TextBytes(kept) + remaining == room
  {
    hide Kept, TextBytes, Keeps;
    kept, remaining := [], room;
    assert [] + Kept(texts, room) == Kept(texts, room) && texts[0..] == texts;
    KeptNothing();
    var i := 0;
    while i < |texts|
      invariant i <= |texts| && kept + Kept(texts[i..], remaining) == Kept(texts, room)
      invariant TextBytes(kept) + remaining == room
    {
      KeptNext(texts, i, remaining);
      var name := Keeps(texts[i].name, remaining);
      var value := Keeps(texts[i].value, remaining - name);
      AppendText(kept, Texts(name, value));
      Shift(kept, Texts(name, value), Kept(texts[i + 1..], remaining - name - value));
      remaining := remaining - name - value;
      kept, i := kept + [Texts(name, value)], i + 1;
    }
    assert texts[i..] == [] && kept + [] == kept;
  }

  /** The strings kept of a vector, names before values, first come first served. */
  function Kept(texts: seq<Texts>, remaining: nat): seq<Texts> {
    if texts == [] then []
    else
      var name := Keeps(texts[0].name, remaining);
      var value := Keeps(texts[0].value, remaining - name);
      [Texts(name, value)] + Kept(texts[1..], remaining - name - value)
  }

  lemma KeptNothing()
    ensures Kept([], 0) == [] && TextBytes([]) == 0
    ensures forall remaining: nat :: Kept([], remaining) == []
  {}

  lemma KeptNext(texts: seq<Texts>, i: nat, remaining: nat)
    requires i < |texts|
    ensures
      var name := Keeps(texts[i].name, remaining);
      name <= remaining &&
      var value := Keeps(texts[i].value, remaining - name);
      value <= remaining - name
      && Kept(texts[i..], remaining) == [Texts(name, value)] + Kept(texts[i + 1..], remaining - name - value)
  {
    assert texts[i..][1..] == texts[i + 1..];
  }

  lemma Shift(kept: seq<Texts>, t: Texts, rest: seq<Texts>)
    ensures kept + ([t] + rest) == (kept + [t]) + rest
  {}

  /** When a string and the larger of two names fit, the two largest of the three stay. */
  lemma LargestStay(names: (nat, nat), capacity: nat, taken: nat)
    requires capacity <= MAX_STRING_BYTES && capacity + Max(names.0, names.1) + taken <= MAX_RETAINED_BYTES
    ensures
      var kept := SlotsAfter(names, capacity, taken);
      && Max(kept.0, kept.1) == Max(capacity, Max(names.0, names.1))
      && kept.0 + kept.1 + Min(capacity, Min(names.0, names.1)) == names.0 + names.1 + capacity
  {}

  // ------------------------------------------------------------------ any run

  datatype Operation =
    | Reserve(token: nat, bytes: nat) | Release(token: nat) | TakeAttributes | TakeAName
    | Return(token: nat, name: Option<nat>, attributes: Option<Attributes>)

  /** What the crate's callers respect: a reservation is bounded, a vector holds no more than its capacity. */
  predicate Legal(parserId: nat, op: Operation) {
    match op
    case Reserve(token, bytes) => token == parserId && bytes <= MAX_RETAINED_BYTES - 2 * MAX_STRING_BYTES
    case Return(_, _, attributes) => attributes.Some? ==> |attributes.value.texts| <= attributes.value.capacity
    case _ => true
  }

  predicate AllLegal(parserId: nat, operations: seq<Operation>) {
    forall op | op in operations :: Legal(parserId, op)
  }

  /** What a cache keeps, without its bookkeeping. */
  datatype Storage = Storage(attributes: Attributes, adapter: nat, names: (nat, nat))

  const EMPTY := Storage(NO_ATTRIBUTES, 0, (0, 0))

  /** What an operation hands to its caller. */
  datatype Handed = Nothing | Vector(attributes: Attributes) | NameOf(name: Option<nat>)

  function Gives(s: Storage, op: Operation): Handed {
    match op
    case TakeAttributes => Vector(s.attributes)
    case TakeAName => NameOf(FirstName(s.names))
    case _ => Nothing
  }

  function After(s: Storage, parserId: nat, recordBytes: nat, op: Operation): Storage {
    match op
    case Reserve(_, bytes) =>
      var fits := Retained(s.attributes, recordBytes) + bytes + s.names.0 + s.names.1 <= MAX_RETAINED_BYTES;
      Storage(if fits then s.attributes else NO_ATTRIBUTES, bytes, s.names)
    case Release(token) => if token == parserId then s.(adapter := 0) else s
    case TakeAttributes => s.(attributes := NO_ATTRIBUTES)
    case TakeAName => s.(names := SlotsWithout(s.names))
    case Return(token, name, attributes) =>
      if token != parserId then s
      else
        var taken := Retained(s.attributes, recordBytes) + s.adapter;
        var names := if name.Some? then SlotsAfter(s.names, name.value, taken) else s.names;
        var left := s.adapter + names.0 + names.1;
        Storage(if attributes.Some? then AttributesAfter(s.attributes, attributes.value, recordBytes, left)
                else s.attributes, s.adapter, names)
  }

  function AfterAll(parserId: nat, recordBytes: nat, operations: seq<Operation>): Storage {
    if operations == [] then EMPTY
    else
      var n := |operations| - 1;
      After(AfterAll(parserId, recordBytes, operations[..n]), parserId, recordBytes, operations[n])
  }

  /** Every run of operations keeps, and hands out at each step, exactly what the fold says. */
  method Run(parserId: nat, recordBytes: nat, operations: seq<Operation>)
    returns (kept: Storage, given: seq<Handed>)
    requires AllLegal(parserId, operations)
    ensures kept == AfterAll(parserId, recordBytes, operations) && |given| == |operations|
    ensures forall i: nat | i < |operations| ::
      given[i] == Gives(AfterAll(parserId, recordBytes, operations[..i]), operations[i])
  {
    hide Retained, AttributesAfter, SlotsAfter, SlotsWithout, FirstName, AfterAll;
    var cache := new EventRecycling(parserId, recordBytes);
    given := [];
    NothingDone(parserId, recordBytes);
    assert operations[..0] == [];
    for i := 0 to |operations|
      invariant fresh(cache) && cache.Valid() && cache.parserId == parserId && cache.recordBytes == recordBytes
      invariant cache.Holds() == AfterAll(parserId, recordBytes, operations[..i]) && |given| == i
      invariant forall j: nat | j < i ::
        given[j] == Gives(AfterAll(parserId, recordBytes, operations[..j]), operations[j])
    {
      var handed := cache.Perform(operations[i]);
      AfterNext(parserId, recordBytes, operations, i);
      given := given + [handed];
    }
    kept := cache.Holds();
    assert operations[..|operations|] == operations;
  }

  lemma NothingDone(parserId: nat, recordBytes: nat)
    ensures AfterAll(parserId, recordBytes, []) == EMPTY
  {}

  lemma AfterNext(parserId: nat, recordBytes: nat, operations: seq<Operation>, i: nat)
    requires i < |operations|
    ensures AfterAll(parserId, recordBytes, operations[..i + 1])
         == After(AfterAll(parserId, recordBytes, operations[..i]), parserId, recordBytes, operations[i])
  {
    assert operations[..i + 1][..i] == operations[..i];
  }

  predicate Bounded(s: Storage, recordBytes: nat) {
    && Retained(s.attributes, recordBytes) + s.adapter + s.names.0 + s.names.1 <= MAX_RETAINED_BYTES
    && s.attributes.capacity <= MAX_RECORDS && s.adapter <= MAX_RETAINED_BYTES - 2 * MAX_STRING_BYTES
    && s.names.0 <= MAX_STRING_BYTES && s.names.1 <= MAX_STRING_BYTES && Small(s.attributes.texts)
  }

  predicate Small(texts: seq<Texts>) {
    forall i: nat | i < |texts| :: texts[i].name <= MAX_STRING_BYTES && texts[i].value <= MAX_STRING_BYTES
  }

  /** Over every run all storage stays within one budget, and no single string is large. */
  lemma {:induction false} StaysBounded(parserId: nat, recordBytes: nat, operations: seq<Operation>)
    requires AllLegal(parserId, operations)
    ensures Bounded(AfterAll(parserId, recordBytes, operations), recordBytes)
  {
    if operations != [] {
      var n := |operations| - 1;
      StaysBounded(parserId, recordBytes, operations[..n]);
      StepBounded(AfterAll(parserId, recordBytes, operations[..n]), parserId, recordBytes, operations[n]);
    }
  }

  lemma StepBounded(s: Storage, parserId: nat, recordBytes: nat, op: Operation)
    requires Bounded(s, recordBytes) && Legal(parserId, op)
    ensures Bounded(After(s, parserId, recordBytes, op), recordBytes)
  {
    hide TextBytes, Kept, RecordBytes;
    NothingRetained(recordBytes);
    match op
    case Return(token, name, attributes) =>
      if attributes.Some? {
        var returned := attributes.value;
        var s' := After(s, parserId, recordBytes, op);
        var left := s.adapter + s'.names.0 + s'.names.1 + RecordBytes(returned.capacity, recordBytes);
        if left <= MAX_RETAINED_BYTES { KeptFits(returned.texts, MAX_RETAINED_BYTES - left); }
      }
    case _ =>
  }

  lemma NothingRetained(recordBytes: nat)
    ensures Retained(NO_ATTRIBUTES, recordBytes) == 0
  {}

  /** One capacity, or none. */
  function Owner(capacity: nat): multiset<nat> { if capacity == 0 then multiset{} else multiset{capacity} }

  function Owners(names: (nat, nat)): multiset<nat> { Owner(names.0) + Owner(names.1) }

  /** The name owner an operation hands out. */
  function NameGiven(s: Storage, op: Operation): multiset<nat> {
    if op.TakeAName? && FirstName(s.names).Some? then Owner(FirstName(s.names).value) else multiset{}
  }

  /** The name owner that comes back under the parser's own token. */
  function NameReturned(parserId: nat, op: Operation): multiset<nat> {
    if op.Return? && op.token == parserId && op.name.Some? then Owner(op.name.value) else multiset{}
  }

  function NamesGiven(parserId: nat, recordBytes: nat, operations: seq<Operation>): multiset<nat> {
    if operations == [] then multiset{}
    else
      var n := |operations| - 1;
      NamesGiven(parserId, recordBytes, operations[..n])
      + NameGiven(AfterAll(parserId, recordBytes, operations[..n]), operations[n])
  }

  function NamesReturned(parserId: nat, operations: seq<Operation>): multiset<nat> {
    if operations == [] then multiset{}
    else
      var n := |operations| - 1;
      NamesReturned(parserId, operations[..n]) + NameReturned(parserId, operations[n])
  }

  /** No name owner appears from nowhere or twice: whatever is retained or was handed out came back
      under the parser's own token before, once for each time. */
  lemma {:induction false} NamesConserved(parserId: nat, recordBytes: nat, operations: seq<Operation>)
    ensures NamesGiven(parserId, recordBytes, operations) + Owners(AfterAll(parserId, recordBytes, operations).names)
         <= NamesReturned(parserId, operations)
  {
    hide Owners, After, NameGiven, NameReturned;
    if operations == [] {
      NothingOwned();
    } else {
      var n := |operations| - 1;
      var s := AfterAll(parserId, recordBytes, operations[..n]);
      NamesConserved(parserId, recordBytes, operations[..n]);
      NameMoves(s, parserId, recordBytes, operations[n]);
      Carry(NamesGiven(parserId, recordBytes, operations[..n]), Owners(s.names),
            NamesReturned(parserId, operations[..n]), NameGiven(s, operations[n]),
            Owners(After(s, parserId, recordBytes, operations[n]).names), NameReturned(parserId, operations[n]));
    }
  }

  lemma NothingOwned()
    ensures Owners(EMPTY.names) == multiset{}
  {}

  lemma NameMoves(s: Storage, parserId: nat, recordBytes: nat, op: Operation)
    ensures NameGiven(s, op) + Owners(After(s, parserId, recordBytes, op).names)
         <= Owners(s.names) + NameReturned(parserId, op)
  {
    hide Retained, AttributesAfter, RecordBytes, Owners, SlotsAfter, SlotsWithout, FirstName;
    if op.TakeAName? {
      SlotTaken(s.names);
    } else if op.Return? && op.name.Some? {
      SlotReplaced(s.names, op.name.value, Retained(s.attributes, recordBytes) + s.adapter);
    }
  }

  lemma SlotTaken(names: (nat, nat))
    ensures Owners(names)
         == Owners(SlotsWithout(names)) + if FirstName(names).Some? then Owner(FirstName(names).value) else multiset{}
  {}

  lemma SlotReplaced(names: (nat, nat), capacity: nat, taken: nat)
    ensures Owners(SlotsAfter(names, capacity, taken)) <= Owners(names) + Owner(capacity)
  {}

  lemma Carry(given: multiset<nat>, held: multiset<nat>, returned: multiset<nat>,
              more: multiset<nat>, now: multiset<nat>, back: multiset<nat>)
    requires given + held <= returned && more + now <= held + back
    ensures (given + more) + now <= returned + back
  {
    forall x: nat ensures ((given + more) + now)[x] <= (returned + back)[x] {
      assert (given + held)[x] <= returned[x] && (more + now)[x] <= (held + back)[x];
    }
  }

  /** What is kept never exceeds what was left, and every string is kept whole or not at all. */
  lemma {:induction false} KeptFits(texts: seq<Texts>, remaining: nat)
    ensures |Kept(texts, remaining)| == |texts| && TextBytes(Kept(texts, remaining)) <= remaining
    ensures forall i: nat | i < |texts| :: WholeOrNone(texts[i], Kept(texts, remaining)[i])
  {
    if texts != [] {
      var name := Keeps(texts[0].name, remaining);
      var value := Keeps(texts[0].value, remaining - name);
      var left := remaining - name - value;
      KeptFits(texts[1..], left);
      PrependText(Texts(name, value), Kept(texts[1..], left));
      forall i: nat | i < |texts| ensures WholeOrNone(texts[i], Kept(texts, remaining)[i]) {
        if i > 0 { assert texts[i] == texts[1..][i - 1] && Kept(texts, remaining)[i] == Kept(texts[1..], left)[i - 1]; }
      }
    }
  }

  /** Strings are dropped only for their size: the first ones that fit are kept. */
  lemma {:induction false} KeptGreedily(texts: seq<Texts>, remaining: nat, i: nat)
    requires i < |texts|
    ensures |Kept(texts, remaining)| == |texts| && TextBytes(Kept(texts, remaining)[..i]) <= remaining
    ensures Greedy(texts[i], Kept(texts, remaining)[i], remaining - TextBytes(Kept(texts, remaining)[..i]))
  {
    hide TextBytes, Greedy;
    var name := Keeps(texts[0].name, remaining);
    var value := Keeps(texts[0].value, remaining - name);
    var all, rest := Kept(texts, remaining), Kept(texts[1..], remaining - name - value);
    KeptFits(texts, remaining);
    assert all == [Texts(name, value)] + rest;
    hide Kept;
    KeptNothing();
    if i == 0 {
      assert all[..0] == [];
      FirstGreedy(texts[0], remaining);
    } else {
      KeptGreedily(texts[1..], remaining - name - value, i - 1);
      assert all[..i] == [Texts(name, value)] + rest[..i - 1];
      PrependText(Texts(name, value), rest[..i - 1]);
    }
  }

  lemma FirstGreedy(text: Texts, remaining: nat)
    ensures
      var name := Keeps(text.name, remaining);
      Greedy(text, Texts(name, Keeps(text.value, remaining - name)), remaining)
  {}

  /** Only what is too long, or does not fit what is left, is not kept. */
  predicate Greedy(text: Texts, kept: Texts, left: nat) {
    && (kept.name < text.name ==> text.name > MAX_STRING_BYTES || text.name > left)
    && (kept.value < text.value ==> text.value > MAX_STRING_BYTES || kept.name + text.value > left)
  }

  predicate WholeOrNone(text: Texts, kept: Texts) {
    && (kept.name == 0 || kept.name == text.name <= MAX_STRING_BYTES)
    && (kept.value == 0 || kept.value == text.value <= MAX_STRING_BYTES)
  }

  lemma {:induction false} PrependText(t: Texts, texts: seq<Texts>)
    ensures TextBytes([t] + texts) == t.name + t.value + TextBytes(texts)
  {
    if texts == [] {
      assert ([t] + texts)[..0] == [] && ([t] + texts)[0] == t;
    } else {
      var n := |texts| - 1;
      assert ([t] + texts)[..n + 1] == [t] + texts[..n];
      PrependText(t, texts[..n]);
    }
  }
}
