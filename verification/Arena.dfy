/** Detached callback storage (arena.rs): NUL-terminated fields packed one by one, or patched into
    one copied span. */
module Arena {
  import opened Unicode
  import opened Wrappers

  const MAX_ARENA_BYTES: nat := 4096
  const INLINE_TEXT_BYTES: nat := 23
  const MIN_CAPACITY: nat := 8

  /** A half-open range of arena bytes. */
  datatype Range = Range(from: nat, until: nat)

  datatype ArenaAttribute = ArenaAttribute(name: Range, value: Range)

  datatype Payload = Start | InlineText | HeapText

  /** Where a name and its value lie in the text of a start tag. */
  datatype RawAttribute = RawAttribute(nameStart: nat, nameEnd: nat, valueStart: nat, valueEnd: nat)

  type Bytes = seq<Byte>

  /** What a callback sees of one attribute. */
  type Pair = (Bytes, Bytes)

  function Terminated(text: Bytes): Bytes { text + [0] }

  function Name(rest: Bytes, a: RawAttribute): Bytes
    requires a.nameStart <= a.nameEnd <= |rest|
  {
    rest[a.nameStart..a.nameEnd]
  }

  function Value(rest: Bytes, a: RawAttribute): Bytes
    requires a.valueStart <= a.valueEnd <= |rest|
  {
    rest[a.valueStart..a.valueEnd]
  }

  /** Parsed attributes: name, `=`, quote, value, quote, each after the one before. */
  predicate Separated(rest: Bytes, attributes: seq<RawAttribute>, from: nat) {
    && (forall a | a in attributes ::
         from <= a.nameStart <= a.nameEnd < a.valueStart <= a.valueEnd < |rest|)
    && (forall i: nat, j: nat | i < j < |attributes| :: attributes[i].valueEnd < attributes[j].nameStart)
  }

  predicate Within(rest: Bytes, a: RawAttribute) {
    a.nameStart <= a.nameEnd < a.valueStart <= a.valueEnd < |rest|
  }

  predicate AllWithin(rest: Bytes, attributes: seq<RawAttribute>) {
    forall i: nat | i < |attributes| :: Within(rest, attributes[i])
  }

  /** The pairs a callback must see, in source order. */
  function Pairs(rest: Bytes, attributes: seq<RawAttribute>): seq<Pair>
    requires AllWithin(rest, attributes)
  {
    if attributes == [] then []
    else
      var n := |attributes| - 1;
      Pairs(rest, attributes[..n]) + [(Terminated(Name(rest, attributes[n])), Terminated(Value(rest, attributes[n])))]
  }

  predicate Inside(bytes: Bytes, r: Range) { r.from <= r.until <= |bytes| }

  predicate AllInside(bytes: Bytes, attributes: seq<ArenaAttribute>) {
    forall i: nat | i < |attributes| :: Inside(bytes, attributes[i].name) && Inside(bytes, attributes[i].value)
  }

  /** What the stored ranges show. */
  function Shown(bytes: Bytes, attributes: seq<ArenaAttribute>): seq<Pair>
    requires AllInside(bytes, attributes)
  {
    if attributes == [] then []
    else
      var n := |attributes| - 1;
      Shown(bytes, attributes[..n]) + [Fields(bytes, attributes[n])]
  }

  function Fields(bytes: Bytes, a: ArenaAttribute): Pair
    requires Inside(bytes, a.name) && Inside(bytes, a.value)
  {
    (bytes[a.name.from..a.name.until], bytes[a.value.from..a.value.until])
  }

  /** Appending leaves every earlier field as it was. */
  lemma {:induction false} ShownStays(bytes: Bytes, more: Bytes, attributes: seq<ArenaAttribute>)
    requires AllInside(bytes, attributes)
    ensures AllInside(bytes + more, attributes) && Shown(bytes + more, attributes) == Shown(bytes, attributes)
    decreases |attributes|
  {
    if attributes != [] {
      var n := |attributes| - 1;
      ShownStays(bytes, more, attributes[..n]);
      var a := attributes[n];
      RangeStays(bytes, more, a.name);
      RangeStays(bytes, more, a.value);
    }
  }

  lemma ShownNext(bytes: Bytes, attributes: seq<ArenaAttribute>, a: ArenaAttribute)
    requires AllInside(bytes, attributes) && Inside(bytes, a.name) && Inside(bytes, a.value)
    ensures AllInside(bytes, attributes + [a])
    ensures Shown(bytes, attributes + [a]) == Shown(bytes, attributes) + [Fields(bytes, a)]
  {
    assert (attributes + [a])[..|attributes|] == attributes;
  }

  lemma StillSeparated(rest: Bytes, raw: seq<RawAttribute>, n: nat)
    requires Separated(rest, raw, 0) && n <= |raw|
    ensures Separated(rest, raw[..n], 0)
  {
    assert forall a | a in raw[..n] :: a in raw;
  }

  lemma PairsNext(rest: Bytes, raw: seq<RawAttribute>, i: nat)
    requires Separated(rest, raw, 0) && i < |raw|
    ensures Within(rest, raw[i]) && AllWithin(rest, raw[..i]) && AllWithin(rest, raw[..i + 1])
    ensures Pairs(rest, raw[..i + 1])
         == Pairs(rest, raw[..i]) + [(Terminated(Name(rest, raw[i])), Terminated(Value(rest, raw[i])))]
  {
    hide Pairs, FieldBytes, Separated, Terminated, Name, Value;
    EachWithin(rest, raw);
    var next := raw[..i + 1];
    assert next[..i] == raw[..i] && next[i] == raw[i];
    LastPair(rest, next);
  }

  lemma FieldsNext(rest: Bytes, raw: seq<RawAttribute>, i: nat)
    requires Separated(rest, raw, 0) && i < |raw|
    ensures Within(rest, raw[i]) && AllWithin(rest, raw[..i]) && AllWithin(rest, raw[..i + 1])
    ensures FieldBytes(raw[..i + 1])
         == FieldBytes(raw[..i]) + (raw[i].nameEnd - raw[i].nameStart) + (raw[i].valueEnd - raw[i].valueStart)
    ensures FieldBytes(raw[..i + 1]) + 2 * (i + 1) <= |rest|
  {
    hide Pairs, FieldBytes, Separated;
    EachWithin(rest, raw);
    StillSeparated(rest, raw, i + 1);
    var next := raw[..i + 1];
    assert next[..i] == raw[..i] && next[i] == raw[i];
    LastPair(rest, next);
    PackedFits(rest, next, 0);
  }

  lemma EachWithin(rest: Bytes, raw: seq<RawAttribute>)
    requires Separated(rest, raw, 0)
    ensures AllWithin(rest, raw)
  {
    forall j: nat | j < |raw| ensures Within(rest, raw[j]) { assert raw[j] in raw; }
  }

  lemma LastPair(rest: Bytes, raw: seq<RawAttribute>)
    requires AllWithin(rest, raw) && raw != []
    ensures
      var n := |raw| - 1;
      && Pairs(rest, raw) == Pairs(rest, raw[..n]) + [(Terminated(Name(rest, raw[n])), Terminated(Value(rest, raw[n])))]
      && FieldBytes(raw)
           == FieldBytes(raw[..n]) + (raw[n].nameEnd - raw[n].nameStart) + (raw[n].valueEnd - raw[n].valueStart)
  {
    hide Name, Value, Terminated;
  }

  lemma Tail(a: Bytes, b: Bytes)
    ensures (a + b)[|a|..|a + b|] == b
  {}

  lemma RangeStays(bytes: Bytes, more: Bytes, r: Range)
    requires Inside(bytes, r)
    ensures Inside(bytes + more, r) && (bytes + more)[r.from..r.until] == bytes[r.from..r.until]
  {}

  function FieldBytes(attributes: seq<RawAttribute>): nat
    requires forall a | a in attributes :: a.nameStart <= a.nameEnd && a.valueStart <= a.valueEnd
  {
    if attributes == [] then 0
    else
      var n := |attributes| - 1;
      var a := attributes[n];
      FieldBytes(attributes[..n]) + (a.nameEnd - a.nameStart) + (a.valueEnd - a.valueStart)
  }

  /** Packed one by one, with their terminators, the fields never need more than the span. */
  lemma {:induction false} PackedFits(rest: Bytes, attributes: seq<RawAttribute>, from: nat)
    requires Separated(rest, attributes, from) && from <= |rest|
    ensures FieldBytes(attributes) + 2 * |attributes| <= |rest| - from
    ensures attributes != [] ==>
      FieldBytes(attributes) + 2 * |attributes| <= attributes[|attributes| - 1].valueEnd + 1 - from
  {
    if attributes != [] {
      var n := |attributes| - 1;
      assert attributes[n] in attributes;
      assert forall i: nat | i < n :: attributes[..n][i] == attributes[i];
      PackedFits(rest, attributes[..n], from);
      if n > 0 { assert attributes[n - 1].valueEnd < attributes[n].nameStart; }
    }
  }

  // ---------------------------------------------------------------- the capacity

  /** `Vec::try_reserve`: amortized growth. */
  function Reserved(capacity: nat, length: nat, additional: nat): (grown: nat)
    requires length <= capacity
    ensures grown >= capacity && grown >= length + additional
  {
    if additional <= capacity - length then capacity
    else Max(Max(2 * capacity, length + additional), MIN_CAPACITY)
  }

  function ReservedExactly(capacity: nat, length: nat, additional: nat): (grown: nat)
    requires length <= capacity
    ensures grown >= capacity && grown >= length + additional
  {
    Max(capacity, length + additional)
  }

  class AdapterFrame {
    var bytes: Bytes
    var capacity: nat
    var attributes: seq<ArenaAttribute>
    var name: Range
    var callbackBytes: nat
    var inline: Bytes
    var payload: Payload

    /** Ranges lie in the arena, and the arena within its budget. */
    ghost predicate Valid()
      reads this
    {
      |bytes| <= capacity <= MAX_ARENA_BYTES && Inside(bytes, name) && AllInside(bytes, attributes)
    }

    /** `attributes`: the pairs a callback sees. */
    function Visible(): seq<Pair>
      requires AllInside(bytes, attributes)
      reads this
    {
      Shown(bytes, attributes)
    }

    /** `name_bytes` */
    function NameBytes(): Bytes
      requires Inside(bytes, name)
      reads this
    {
      bytes[name.from..name.until]
    }

    constructor ()
      ensures Valid() && bytes == [] && attributes == [] && callbackBytes == 0
    {
      bytes, capacity, attributes, name, callbackBytes, inline, payload := [], 0, [], Range(0, 0), 0, [], Start;
    }

    /** `clear`: storage beyond the budget is not kept for reuse. */
    method Clear()
      modifies this
      requires |bytes| <= capacity
      ensures Valid() && bytes == [] && attributes == [] && name == Range(0, 0)
      ensures callbackBytes == 0 && payload == Start
      ensures capacity == if old(capacity) > MAX_ARENA_BYTES then 0 else old(capacity)
    {
      payload, name, callbackBytes := Start, Range(0, 0), 0;
      if capacity > MAX_ARENA_BYTES {
        capacity := 0;
      }
      bytes, attributes := [], [];
    }

    /** `append`: a terminated copy behind everything appended before. */
    method Append(text: Bytes) returns (range: Range)
      requires Valid() && |bytes| + |text| + 1 <= MAX_ARENA_BYTES
      modifies this`bytes, this`capacity, this`callbackBytes
      ensures Valid() && bytes == old(bytes) + Terminated(text) && callbackBytes == old(callbackBytes) + |text|
      ensures range == Range(|old(bytes)|, |bytes|) && Inside(bytes, range)
      ensures bytes[range.from..range.until] == Terminated(text)
      ensures Visible() == old(Visible()) && NameBytes() == old(NameBytes())
    {
      var required := |text| + 1;
      var free: nat := capacity - |bytes|;
      if required > free && capacity > MAX_ARENA_BYTES / 2 {
        var whole: nat := MAX_ARENA_BYTES - |bytes|;
        capacity := ReservedExactly(capacity, |bytes|, whole);
      } else {
        capacity := Reserved(capacity, |bytes|, required);
      }
      var start := |bytes|;
      bytes := bytes + text + [0];
      callbackBytes := callbackBytes + |text|;
      range := Range(start, |bytes|);
      assert bytes == old(bytes) + Terminated(text);
      Tail(old(bytes), Terminated(text));
      ShownStays(old(bytes), Terminated(text), attributes);
      RangeStays(old(bytes), Terminated(text), name);
    }

    /** `push_attribute`: value before name, as ever. */
    method PushAttribute(attributeName: Bytes, value: Bytes)
      requires Valid() && |bytes| + |attributeName| + |value| + 2 <= MAX_ARENA_BYTES
      modifies this`bytes, this`capacity, this`callbackBytes, this`attributes
      ensures Valid() && |bytes| == |old(bytes)| + |attributeName| + |value| + 2
      ensures Visible() == old(Visible()) + [(Terminated(attributeName), Terminated(value))]
      ensures callbackBytes == old(callbackBytes) + |attributeName| + |value|
    {
      hide Shown;
      var valueRange := Append(value);
      RangeStays(bytes, Terminated(attributeName), valueRange);
      var nameRange := Append(attributeName);
      ShownNext(bytes, attributes, ArenaAttribute(nameRange, valueRange));
      attributes := attributes + [ArenaAttribute(nameRange, valueRange)];
    }

    /** `set_name` */
    method SetName(text: Bytes)
      requires Valid() && |bytes| + |text| + 1 <= MAX_ARENA_BYTES
      modifies this`bytes, this`capacity, this`callbackBytes, this`name
      ensures Valid() && NameBytes() == Terminated(text) && Visible() == old(Visible())
      ensures callbackBytes == old(callbackBytes) + |text| && bytes == old(bytes) + Terminated(text)
    {
      name := Append(text);
    }

    /** `fits_literal_attributes` */
    predicate FitsLiteralAttributes(rest: Bytes, tagName: Bytes)
      reads this
    {
      |rest| + |tagName| + 1 <= MAX_ARENA_BYTES && |rest| + |tagName| + 1 <= capacity
    }

    /** `push_literal_attributes`: one copied span, only its delimiters overwritten. */
    method PushLiteralAttributes(rest: Bytes, raw: seq<RawAttribute>)
      requires Valid() && bytes == [] && attributes == [] && name == Range(0, 0)
      requires |rest| <= capacity && Separated(rest, raw, 0)
      modifies this`bytes, this`attributes, this`callbackBytes
      ensures Valid() && |bytes| == |rest| && AllWithin(rest, raw) && Visible() == Pairs(rest, raw)
      ensures callbackBytes == old(callbackBytes) + FieldBytes(raw) && FieldBytes(raw) <= |rest|
      ensures Patched(rest, bytes, raw)
    {
      hide Shown, Pairs, FieldBytes, Patched;
      bytes := rest;
      var i := 0;
      NothingPlaced(rest, raw);
      while i < |raw|
        invariant i <= |raw| && attributes == Placed(raw[..i]) && callbackBytes == old(callbackBytes) + FieldBytes(raw[..i])
        invariant Patched(rest, bytes, raw[..i])
      {
        FieldsNext(rest, raw, i);
        PatchNext(rest, bytes, raw, i);
        bytes := bytes[raw[i].nameEnd := 0];
        bytes := bytes[raw[i].valueEnd := 0];
        attributes := attributes + [Place(raw[i])];
        callbackBytes := callbackBytes + (raw[i].nameEnd - raw[i].nameStart) + (raw[i].valueEnd - raw[i].valueStart);
        i := i + 1;
      }
      assert raw[..i] == raw;
      PatchedView(rest, bytes, raw, |raw|);
      PackedFits(rest, raw, 0);
    }

    /** The same attributes pushed one by one. */
    method PushEach(rest: Bytes, raw: seq<RawAttribute>)
      requires Valid() && bytes == [] && attributes == []
      requires |rest| <= MAX_ARENA_BYTES && Separated(rest, raw, 0)
      modifies this`bytes, this`capacity, this`attributes, this`callbackBytes
      ensures Valid() && |bytes| <= |rest| && AllWithin(rest, raw) && Visible() == Pairs(rest, raw)
      ensures callbackBytes == old(callbackBytes) + FieldBytes(raw)
    {
      hide FieldBytes;
      var i := 0;
      NothingPlaced(rest, raw);
      while i < |raw|
        invariant i <= |raw| && Valid() && |bytes| == FieldBytes(raw[..i]) + 2 * i <= |rest|
        invariant callbackBytes == old(callbackBytes) + FieldBytes(raw[..i])
        invariant AllWithin(rest, raw[..i]) && Visible() == Pairs(rest, raw[..i])
      {
        hide Pairs, Shown;
        PairsNext(rest, raw, i);
        FieldsNext(rest, raw, i);
        PushAttribute(Name(rest, raw[i]), Value(rest, raw[i]));
        i := i + 1;
      }
      assert raw[..i] == raw;
    }

    /** `prepare_text`: short text inline, longer text in exactly reserved bytes. */
    method PrepareText(text: Bytes)
      requires Valid() && bytes == [] && attributes == [] && name == Range(0, 0) && |text| <= MAX_ARENA_BYTES
      modifies this
      ensures Valid() && TextBytes() == text && callbackBytes == |text|
    {
      if |text| <= INLINE_TEXT_BYTES {
        inline, payload := text, InlineText;
      } else {
        capacity := ReservedExactly(capacity, 0, |text|);
        bytes, payload := text, HeapText;
      }
      callbackBytes := |text|;
      assert text[..|text|] == text;
    }

    /** `text_bytes` */
    function TextBytes(): Bytes
      reads this
    {
      match payload
      case Start => []
      case InlineText => if callbackBytes <= |inline| then inline[..callbackBytes] else inline
      case HeapText => bytes
    }
  }

  function Place(a: RawAttribute): ArenaAttribute {
    ArenaAttribute(Range(a.nameStart, a.nameEnd + 1), Range(a.valueStart, a.valueEnd + 1))
  }

  function Placed(raw: seq<RawAttribute>): seq<ArenaAttribute> {
    seq(|raw|, i requires 0 <= i < |raw| => Place(raw[i]))
  }

  predicate IsDelimiter(raw: seq<RawAttribute>, k: nat) {
    exists a | a in raw :: k == a.nameEnd || k == a.valueEnd
  }

  /** Delimiters are NUL, every other byte is the span's. */
  predicate Patched(rest: Bytes, bytes: Bytes, raw: seq<RawAttribute>) {
    |bytes| == |rest| && forall k: nat | k < |rest| :: bytes[k] == if IsDelimiter(raw, k) then 0 else rest[k]
  }

  /** No delimiter of any attribute lies inside a field. */
  lemma Outside(rest: Bytes, raw: seq<RawAttribute>, i: nat, k: nat)
    requires Separated(rest, raw, 0) && i < |raw|
    requires raw[i].nameStart <= k < raw[i].nameEnd || raw[i].valueStart <= k < raw[i].valueEnd
    ensures !IsDelimiter(raw, k)
  {
    forall a | a in raw ensures k != a.nameEnd && k != a.valueEnd {
      var j: nat :| j < |raw| && raw[j] == a;
      assert raw[i] in raw;
      if j < i { assert raw[j].valueEnd < raw[i].nameStart; }
      if i < j { assert raw[i].valueEnd < raw[j].nameStart; }
    }
  }

  lemma NothingPlaced(rest: Bytes, raw: seq<RawAttribute>)
    requires Separated(rest, raw, 0)
    ensures raw[..0] == [] && Placed([]) == [] && FieldBytes([]) == 0 && Patched(rest, rest, [])
  {}

  lemma PatchNext(rest: Bytes, bytes: Bytes, raw: seq<RawAttribute>, i: nat)
    requires Separated(rest, raw, 0) && i < |raw| && Patched(rest, bytes, raw[..i])
    ensures Within(rest, raw[i]) && |bytes| == |rest|
    ensures Patched(rest, bytes[raw[i].nameEnd := 0][raw[i].valueEnd := 0], raw[..i + 1])
    ensures Placed(raw[..i + 1]) == Placed(raw[..i]) + [Place(raw[i])]
  {
    assert raw[i] in raw && raw[..i + 1] == raw[..i] + [raw[i]];
    forall k: nat | k < |rest|
      ensures IsDelimiter(raw[..i + 1], k) <==> IsDelimiter(raw[..i], k) || k == raw[i].nameEnd || k == raw[i].valueEnd
    {
      if a :| a in raw[..i] && (k == a.nameEnd || k == a.valueEnd) { assert a in raw[..i + 1]; }
      assert raw[i] in raw[..i + 1];
    }
  }

  lemma PatchedField(rest: Bytes, bytes: Bytes, raw: seq<RawAttribute>, i: nat)
    requires Separated(rest, raw, 0) && i < |raw| && Patched(rest, bytes, raw)
    ensures Within(rest, raw[i]) && |bytes| == |rest|
    ensures Fields(bytes, Place(raw[i])) == (Terminated(Name(rest, raw[i])), Terminated(Value(rest, raw[i])))
  {
    var a := raw[i];
    assert a in raw;
    assert IsDelimiter(raw, a.nameEnd) && IsDelimiter(raw, a.valueEnd);
    forall k: nat | a.nameStart <= k < a.nameEnd || a.valueStart <= k < a.valueEnd ensures bytes[k] == rest[k] {
      Outside(rest, raw, i, k);
    }
    assert bytes[a.nameStart..a.nameEnd + 1] == rest[a.nameStart..a.nameEnd] + [0];
    assert bytes[a.valueStart..a.valueEnd + 1] == rest[a.valueStart..a.valueEnd] + [0];
  }

  /** Every field of the patched span shows its own text and one terminator. */
  lemma {:induction false} PatchedView(rest: Bytes, bytes: Bytes, raw: seq<RawAttribute>, n: nat)
    requires Separated(rest, raw, 0) && n <= |raw| && Patched(rest, bytes, raw)
    ensures |bytes| == |rest| && AllWithin(rest, raw[..n]) && AllInside(bytes, Placed(raw[..n]))
    ensures Shown(bytes, Placed(raw[..n])) == Pairs(rest, raw[..n])
  {
    if n == 0 {
      PatchedNothing(rest, bytes, raw);
    } else {
      hide *;
      PatchedView(rest, bytes, raw, n - 1);
      PatchedField(rest, bytes, raw, n - 1);
      PairsNext(rest, raw, n - 1);
      PlacedNext(rest, bytes, raw, n - 1);
      ShownNext(bytes, Placed(raw[..n - 1]), Place(raw[n - 1]));
    }
  }

  lemma PatchedNothing(rest: Bytes, bytes: Bytes, raw: seq<RawAttribute>)
    requires Patched(rest, bytes, raw)
    ensures |bytes| == |rest| && AllWithin(rest, raw[..0]) && AllInside(bytes, Placed(raw[..0]))
    ensures Shown(bytes, Placed(raw[..0])) == Pairs(rest, raw[..0])
  {}

  lemma PlacedNext(rest: Bytes, bytes: Bytes, raw: seq<RawAttribute>, i: nat)
    requires i < |raw| && Within(rest, raw[i]) && |bytes| == |rest|
    ensures Inside(bytes, Place(raw[i]).name) && Inside(bytes, Place(raw[i]).value)
    ensures Placed(raw[..i + 1]) == Placed(raw[..i]) + [Place(raw[i])]
  {
    assert raw[..i + 1] == raw[..i] + [raw[i]];
  }

  /** The literal span of a frame used before and the packed fields of a new one show a callback the
      pairs of the tag, and charge the same bytes. */
  method SameView(rest: Bytes, raw: seq<RawAttribute>, tagName: Bytes, warm: AdapterFrame)
    returns (literal: seq<Pair>, packed: seq<Pair>, counts: (nat, nat))
    requires warm.Valid() && warm.FitsLiteralAttributes(rest, tagName) && Separated(rest, raw, 0)
    modifies warm
    ensures warm.Valid() && warm.NameBytes() == Terminated(tagName)
    ensures AllWithin(rest, raw) && literal == warm.Visible() && literal == packed == Pairs(rest, raw)
    ensures counts.0 == counts.1 == FieldBytes(raw) + |tagName|
  {
    hide Pairs, FieldBytes, Shown, Separated, Patched;
    warm.Clear();
    warm.PushLiteralAttributes(rest, raw);
    warm.SetName(tagName);
    var cold := new AdapterFrame();
    cold.PushEach(rest, raw);
    cold.SetName(tagName);
    literal, packed := warm.Visible(), cold.Visible();
    counts := (warm.callbackBytes, cold.callbackBytes);
  }
}
