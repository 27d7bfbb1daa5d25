/**
 The registry's binary encoding (crates/registry/src/pickle.rs) over unsigned LEB128
 (crates/utils/src/codec/leb128.rs).

 A hash map is pickled in whatever order it iterates, so encoding is defined on `Ordered` values, which fix
 one order per map; decoding yields the value itself.
 */
module Pickle {
  import opened Common
  import opened DivMod

  const U32_RANGE: nat := 0x1_0000_0000

  // ----- Values and types ---------------------------------------------------------------------

  datatype Type =
    | U16
    | U32
    | U64
    | I64
    | Boolean
    | Text
    | Optional(inner: Type)
    | HashMap(key: Type, value: Type)
    | VecMap(key: Type, value: Type)

  datatype Value =
    | Number(n: int)
    | Truth(b: bool)
    | String(bytes: seq<byte>)
    | Nothing
    | Just(v: Value)
    | Mapping(m: map<Value, Value>)
    | Listing(entries: seq<(Value, Value)>)

  /** A value with an iteration order for each of its maps. */
  datatype Ordered =
    | ONumber(n: int)
    | OTruth(b: bool)
    | OString(bytes: seq<byte>)
    | ONothing
    | OJust(v: Ordered)
    | OMapping(entries: Entries)
    | OListing(entries: Entries)

  datatype Entries = Nil | Cons(key: Ordered, value: Ordered, rest: Entries)

  function Count(entries: Entries): nat {
    match entries
    case Nil => 0
    case Cons(_, _, rest) => 1 + Count(rest)
  }

  /** Forgets the iteration orders. */
  function Unordered(o: Ordered): Value
    decreases o
  {
    match o
    case ONumber(n) => Number(n)
    case OTruth(b) => Truth(b)
    case OString(bytes) => String(bytes)
    case ONothing => Nothing
    case OJust(v) => Just(Unordered(v))
    case OMapping(entries) => Mapping(Inserted(map[], entries))
    case OListing(entries) => Listing(Listed(entries))
  }

  /** Inserts the entries one after the other. */
  function Inserted(m: map<Value, Value>, entries: Entries): map<Value, Value>
    decreases entries
  {
    match entries
    case Nil => m
    case Cons(key, value, rest) => Inserted(m[Unordered(key) := Unordered(value)], rest)
  }

  function Listed(entries: Entries): seq<(Value, Value)> {
    match entries
    case Nil => []
    case Cons(key, value, rest) => [(Unordered(key), Unordered(value))] + Listed(rest)
  }

  /** `String`s are valid UTF-8; validity stays abstract. */
  predicate HasType(utf8: seq<byte> -> bool, ty: Type, o: Ordered)
    decreases o
  {
    match ty
    case U16 => o.ONumber? && 0 <= o.n < 0x1_0000
    case U32 => o.ONumber? && 0 <= o.n < 0x1_0000_0000
    case U64 => o.ONumber? && 0 <= o.n < 0x1_0000_0000_0000_0000
    case I64 => o.ONumber? && -0x8000_0000_0000_0000 <= o.n < 0x8000_0000_0000_0000
    case Boolean => o.OTruth?
    case Text => o.OString? && utf8(o.bytes)
    case Optional(inner) => o.ONothing? || (o.OJust? && HasType(utf8, inner, o.v))
    case HashMap(key, value) => o.OMapping? && EntriesHaveType(utf8, key, value, o.entries) && DistinctKeys(o.entries)
    case VecMap(key, value) => o.OListing? && EntriesHaveType(utf8, key, value, o.entries)
  }

  predicate EntriesHaveType(utf8: seq<byte> -> bool, key: Type, value: Type, entries: Entries)
    decreases entries
  {
    entries.Nil?
    || (HasType(utf8, key, entries.key) && HasType(utf8, value, entries.value)
        && EntriesHaveType(utf8, key, value, entries.rest))
  }

  predicate HasKey(entries: Entries, key: Value) {
    entries.Cons? && (Unordered(entries.key) == key || HasKey(entries.rest, key))
  }

  predicate DistinctKeys(entries: Entries) {
    entries.Nil? || (!HasKey(entries.rest, Unordered(entries.key)) && DistinctKeys(entries.rest))
  }

  // ----- LEB128 -------------------------------------------------------------------------------

  function Leb128(n: nat): (bytes: seq<byte>)
    ensures bytes != []
  {
    if n < 128 then [n] else [n % 128 + 128] + Leb128(n / 128)
  }

  /** The integer widths: how many shift amounts the reader tries, and the range of the result. */
  datatype Width = Width(groups: nat, range: nat)

  const WIDTH16 := Width(3, 0x1_0000)
  const WIDTH32 := Width(5, U32_RANGE)
  const WIDTH64 := Width(10, TWO_TO_64)

  predicate IsWidth(w: Width) { w == WIDTH16 || w == WIDTH32 || w == WIDTH64 }

  /** Reads groups from the `i`-th on; a group's bits beyond the width are shifted out. */
  function LebFrom(w: Width, data: seq<byte>, pos: nat, i: nat, result: nat): Option<(nat, nat)>
    requires w.range > 0
    decreases |data| - pos
  {
    if i >= w.groups || pos >= |data| then None
    else
      var next := result + data[pos] % 128 * Pow(128, i) % w.range;
      if data[pos] < 128 then Some((next, pos + 1)) else LebFrom(w, data, pos + 1, i + 1, next)
  }

  lemma WidthCovered(w: Width, n: nat, i: nat)
    requires IsWidth(w) && n < w.range && i + 1 == w.groups
    ensures n < 128 * Pow(128, i)
  {
    assert Pow(128, 2) == 16384 && Pow(128, 4) == 268435456;
    assert Pow(128, 6) == 4398046511104 && Pow(128, 8) == 72057594037927936;
    assert Pow(128, 9) == 9223372036854775808;
  }

  /** The groups still to come carry `rest`, the ones read have given `result`. */
  lemma {:induction false} LebRun(w: Width, data: seq<byte>, pos: nat, tail: seq<byte>, n: nat, i: nat, rest: nat, result: nat)
    requires IsWidth(w) && n < w.range && i < w.groups
    requires n == rest * Pow(128, i) + result && result < Pow(128, i)
    requires pos <= |data| && data[pos..] == Leb128(rest) + tail
    ensures LebFrom(w, data, pos, i, result) == Some((n, pos + |Leb128(rest)|))
    decreases rest
  {
    GroupRead(w, n, i, rest, result);
    FirstByte(rest);
    hide Pow, Leb128;
    assert data[pos] == data[pos..][0] == Leb128(rest)[0];
    if rest < 128 {
    } else {
      assert data[pos + 1..] == data[pos..][1..] == Leb128(rest / 128) + tail;
      LebRun(w, data, pos + 1, tail, n, i + 1, rest / 128, result + rest % 128 * Pow(128, i));
    }
  }

  lemma FirstByte(n: nat)
    ensures Leb128(n)[0] % 128 == n % 128 && (Leb128(n)[0] < 128 <==> n < 128)
    ensures n < 128 ==> |Leb128(n)| == 1
    ensures n >= 128 ==> Leb128(n)[1..] == Leb128(n / 128)
  {}

  /** A group of a number within range is not cut off, and more groups are expected only while shifts remain. */
  lemma GroupRead(w: Width, n: nat, i: nat, rest: nat, result: nat)
    requires IsWidth(w) && n < w.range && i < w.groups
    requires n == rest * Pow(128, i) + result && result < Pow(128, i)
    ensures rest % 128 * Pow(128, i) % w.range == rest % 128 * Pow(128, i)
    ensures rest < 128 ==> result + rest % 128 * Pow(128, i) == n
    ensures rest >= 128 ==> i + 1 < w.groups
    ensures n == rest / 128 * Pow(128, i + 1) + (result + rest % 128 * Pow(128, i))
    ensures result + rest % 128 * Pow(128, i) < Pow(128, i + 1)
  {
    var power, group := Pow(128, i), rest % 128;
    if i + 1 == w.groups {
      WidthCovered(w, n, i);
    }
    assert Pow(128, i + 1) == 128 * power;
    hide Pow;
    Quotient(rest, 128);
    MulMonotone(rest, group, power);
    MulMonotone(0, group, power);
    MulMonotone(group, 0, power);
    DivUnique(group * power, w.range, 0, group * power);
    MulMonotone(rest, 128, power);
    NextGroup(rest, power, result, n);
  }

  lemma NextGroup(rest: nat, power: nat, result: nat, n: nat)
    requires n == rest * power + result && result < power
    ensures n == rest / 128 * (128 * power) + (result + rest % 128 * power)
    ensures result + rest % 128 * power < 128 * power
  {
    var q, r := rest / 128, rest % 128;
    assert rest == q * 128 + r;
    assert (q * 128 + r) * power == q * 128 * power + r * power;
    assert q * 128 * power == q * (128 * power);
    MulMonotone(127, r, power);
  }

  lemma LebRoundTrip(w: Width, n: nat, before: seq<byte>, tail: seq<byte>)
    requires IsWidth(w) && n < w.range
    ensures LebFrom(w, before + Leb128(n) + tail, |before|, 0, 0) == Some((n, |before| + |Leb128(n)|))
  {
    var data := before + Leb128(n) + tail;
    assert data[|before|..] == Leb128(n) + tail;
    LebRun(w, data, |before|, tail, n, 0, n, 0);
  }

  // ----- Encoding -----------------------------------------------------------------------------

  function Pickled(o: Ordered): seq<byte>
    decreases o
  {
    match o
    case ONumber(n) => Leb128(n % TWO_TO_64)
    case OTruth(b) => [if b then 1 else 0]
    case OString(bytes) => Leb128(|bytes| % U32_RANGE) + bytes
    case ONothing => [0]
    case OJust(v) => [1] + Pickled(v)
    case OMapping(entries) => Leb128(Count(entries) % U32_RANGE) + PickledEntries(entries)
    case OListing(entries) => Leb128(Count(entries) % U32_RANGE) + PickledEntries(entries)
  }

  function PickledEntries(entries: Entries): seq<byte>
    decreases entries
  {
    match entries
    case Nil => []
    case Cons(key, value, rest) => Pickled(key) + (Pickled(value) + PickledEntries(rest))
  }

  /** Appends the encoding of a value to the output. */
  method PickleInto(o: Ordered, out: seq<byte>) returns (out': seq<byte>)
    ensures out' == out + Pickled(o)
    decreases o
  {
    hide Leb128, PickledEntries;
    match o
    case ONumber(n) => out' := WriteLeb128(n % TWO_TO_64, out);
    case OTruth(b) => out' := out + [if b then 1 else 0];
    case OString(bytes) =>
      out' := WriteLeb128(|bytes| % U32_RANGE, out);
      Associates(out, Leb128(|bytes| % U32_RANGE), bytes);
      out' := out' + bytes;
    case ONothing => out' := out + [0];
    case OJust(v) =>
      Associates(out, [1], Pickled(v));
      out' := PickleInto(v, out + [1]);
    case OMapping(entries) =>
      Associates(out, Leb128(Count(entries) % U32_RANGE), PickledEntries(entries));
      out' := WriteLeb128(Count(entries) % U32_RANGE, out);
      out' := PickleEntries(entries, out');
    case OListing(entries) =>
      Associates(out, Leb128(Count(entries) % U32_RANGE), PickledEntries(entries));
      out' := WriteLeb128(Count(entries) % U32_RANGE, out);
      out' := PickleEntries(entries, out');
  }

  method PickleEntries(entries: Entries, out: seq<byte>) returns (out': seq<byte>)
    ensures out' == out + PickledEntries(entries)
    decreases entries
  {
    out' := out;
    var todo := entries;
    while todo.Cons?
      invariant todo == entries || todo < entries
      invariant out' + PickledEntries(todo) == out + PickledEntries(entries)
      decreases todo
    {
      ghost var before := out';
      out' := PickleInto(todo.key, out');
      out' := PickleInto(todo.value, out');
      Associates(before, Pickled(todo.key), Pickled(todo.value));
      Associates(before, Pickled(todo.key) + Pickled(todo.value), PickledEntries(todo.rest));
      Associates(Pickled(todo.key), Pickled(todo.value), PickledEntries(todo.rest));
      todo := todo.rest;
    }
    assert out' + [] == out';
  }

  method WriteLeb128(n: nat, out: seq<byte>) returns (out': seq<byte>)
    ensures out' == out + Leb128(n)
  {
    var value := n;
    out' := out;
    while value >= 128
      invariant out' + Leb128(value) == out + Leb128(n)
    {
      Associates(out', [value % 128 + 128], Leb128(value / 128));
      out' := out' + [value % 128 + 128];
      value := value / 128;
    }
    out' := out' + [value];
  }

  // ----- Decoding -----------------------------------------------------------------------------

  type Decoded = (Option<Value>, nat)

  /** An integer of the given width; the position moves only past a complete one. */
  function ReadLeb(w: Width, data: seq<byte>, pos: nat): (Option<nat>, nat)
    requires w.range > 0
  {
    match LebFrom(w, data, pos, 0, 0)
    case None => (None, pos)
    case Some((n, next)) => (Some(n), next)
  }

  function AsValue(r: (Option<nat>, nat)): Decoded {
    (match r.0 case None => None case Some(n) => Some(Number(n)), r.1)
  }

  /** Two's complement of 64 bits. */
  function ToSigned(n: nat): int {
    if n < 0x8000_0000_0000_0000 then n else n - TWO_TO_64
  }

  /** The value of that type at `pos` and the position behind it; None on malformed input. */
  function Unpickled(utf8: seq<byte> -> bool, ty: Type, data: seq<byte>, pos: nat): Decoded
    decreases ty, 1, 0
  {
    match ty
    case U16 => AsValue(ReadLeb(WIDTH16, data, pos))
    case U32 => AsValue(ReadLeb(WIDTH32, data, pos))
    case U64 => AsValue(ReadLeb(WIDTH64, data, pos))
    case I64 =>
      (match ReadLeb(WIDTH64, data, pos)
       case (None, next) => (None, next)
       case (Some(n), next) => (Some(Number(ToSigned(n))), next))
    case Boolean =>
      if pos >= |data| then (None, pos)
      else if data[pos] <= 1 then (Some(Truth(data[pos] == 1)), pos + 1)
      else (None, pos + 1)
    case Text =>
      (match ReadLeb(WIDTH32, data, pos)
       case (None, next) => (None, next)
       case (Some(n), next) =>
         if next + n > |data| then (None, next)
         else if utf8(data[next..next + n]) then (Some(String(data[next..next + n])), next + n)
         else (None, next + n))
    case Optional(inner) =>
      if pos >= |data| then (None, pos)
      else if data[pos] == 0 then (Some(Nothing), pos + 1)
      else if data[pos] == 1 then
        match Unpickled(utf8, inner, data, pos + 1)
        case (None, next) => (None, next)
        case (Some(v), next) => (Some(Just(v)), next)
      else (None, pos + 1)
    case HashMap(_, _) =>
      (match ReadLeb(WIDTH32, data, pos)
       case (None, next) => (None, next)
       case (Some(n), next) => UnpickledMap(utf8, ty, data, next, n, map[]))
    case VecMap(_, _) =>
      (match ReadLeb(WIDTH32, data, pos)
       case (None, next) => (None, next)
       case (Some(n), next) => UnpickledList(utf8, ty, data, next, n, []))
  }

  /** A key and a value in a row. */
  function UnpickledEntry(utf8: seq<byte> -> bool, ty: Type, data: seq<byte>, pos: nat): (Option<(Value, Value)>, nat)
    requires ty.HashMap? || ty.VecMap?
    decreases ty, 0, 0
  {
    match Unpickled(utf8, ty.key, data, pos)
    case (None, next) => (None, next)
    case (Some(k), next) =>
      match Unpickled(utf8, ty.value, data, next)
      case (None, next') => (None, next')
      case (Some(v), next') => (Some((k, v)), next')
  }

  function UnpickledMap(utf8: seq<byte> -> bool, ty: Type, data: seq<byte>, pos: nat, n: nat, m: map<Value, Value>): Decoded
    requires ty.HashMap?
    decreases ty, 0, n + 1
  {
    if n == 0 then (Some(Mapping(m)), pos)
    else
      match UnpickledEntry(utf8, ty, data, pos)
      case (None, next) => (None, next)
      case (Some((k, v)), next) => UnpickledMap(utf8, ty, data, next, n - 1, m[k := v])
  }

  function UnpickledList(utf8: seq<byte> -> bool, ty: Type, data: seq<byte>, pos: nat, n: nat, entries: seq<(Value, Value)>): Decoded
    requires ty.VecMap?
    decreases ty, 0, n + 1
  {
    if n == 0 then (Some(Listing(entries)), pos)
    else
      match UnpickledEntry(utf8, ty, data, pos)
      case (None, next) => (None, next)
      case (Some(e), next) => UnpickledList(utf8, ty, data, next, n - 1, entries + [e])
  }

  class PickledStream {
    const data: seq<byte>
    var pos: nat

    constructor (data: seq<byte>)
      ensures this.data == data && pos == 0
    {
      this.data, this.pos := data, 0;
    }

    method Read() returns (b: Option<byte>)
      modifies this
      ensures (b, pos) == if old(pos) < |data| then (Some(data[old(pos)]), old(pos) + 1) else (None, old(pos))
    {
      b := None;
      if pos < |data| {
        b := Some(data[pos]);
        pos := pos + 1;
      }
    }

    method ReadBytes(len: nat) returns (bytes: Option<seq<byte>>)
      modifies this
      ensures (bytes, pos) == if old(pos) + len <= |data| then (Some(data[old(pos)..old(pos) + len]), old(pos) + len)
                              else (None, old(pos))
    {
      bytes := None;
      if pos + len <= |data| {
        bytes := Some(data[pos..pos + len]);
        pos := pos + len;
      }
    }

    method ReadLeb128(w: Width) returns (n: Option<nat>)
      requires w.range > 0
      modifies this
      ensures (n, pos) == ReadLeb(w, data, old(pos))
    {
      var result: nat, i: nat, next: nat := 0, 0, pos;
      while i < w.groups && next < |data|
        invariant LebFrom(w, data, next, i, result) == LebFrom(w, data, old(pos), 0, 0)
        invariant pos == old(pos)
      {
        var b := data[next];
        result := result + b % 128 * Pow(128, i) % w.range;
        if b < 128 {
          pos := next + 1;
          return Some(result);
        }
        next, i := next + 1, i + 1;
      }
      n := None;
    }

    method Unpickle(utf8: seq<byte> -> bool, ty: Type) returns (v: Option<Value>)
      modifies this
      ensures (v, pos) == Unpickled(utf8, ty, data, old(pos))
      decreases ty, 1
    {
      match ty
      case U16 =>
        var n := ReadLeb128(WIDTH16);
        v := if n.Some? then Some(Number(n.value)) else None;
      case U32 =>
        var n := ReadLeb128(WIDTH32);
        v := if n.Some? then Some(Number(n.value)) else None;
      case U64 =>
        var n := ReadLeb128(WIDTH64);
        v := if n.Some? then Some(Number(n.value)) else None;
      case I64 =>
        var n := ReadLeb128(WIDTH64);
        v := if n.Some? then Some(Number(ToSigned(n.value))) else None;
      case Boolean =>
        var b := Read();
        v := if b == Some(0) then Some(Truth(false)) else if b == Some(1) then Some(Truth(true)) else None;
      case Text =>
        var n := ReadLeb128(WIDTH32);
        if n.None? {
          return None;
        }
        var bytes := ReadBytes(n.value);
        v := if bytes.Some? && utf8(bytes.value) then Some(String(bytes.value)) else None;
      case Optional(inner) =>
        var b := Read();
        if b == Some(0) {
          v := Some(Nothing);
        } else if b == Some(1) {
          v := Unpickle(utf8, inner);
          v := if v.Some? then Some(Just(v.value)) else None;
        } else {
          v := None;
        }
      case HashMap(_, _) =>
        var n := ReadLeb128(WIDTH32);
        if n.None? {
          return None;
        }
        v := UnpickleMap(utf8, ty, n.value);
      case VecMap(_, _) =>
        var n := ReadLeb128(WIDTH32);
        if n.None? {
          return None;
        }
        v := UnpickleList(utf8, ty, n.value);
    }

    method UnpickleEntry(utf8: seq<byte> -> bool, ty: Type) returns (e: Option<(Value, Value)>)
      requires ty.HashMap? || ty.VecMap?
      modifies this
      ensures (e, pos) == UnpickledEntry(utf8, ty, data, old(pos))
      decreases ty, 0, 0
    {
      var k := Unpickle(utf8, ty.key);
      if k.None? {
        return None;
      }
      var v := Unpickle(utf8, ty.value);
      e := if v.Some? then Some((k.value, v.value)) else None;
    }

    method UnpickleMap(utf8: seq<byte> -> bool, ty: Type, len: nat) returns (v: Option<Value>)
      requires ty.HashMap?
      modifies this
      ensures (v, pos) == UnpickledMap(utf8, ty, data, old(pos), len, map[])
      decreases ty, 0, 1
    {
      var m: map<Value, Value> := map[];
      for i := 0 to len
        invariant UnpickledMap(utf8, ty, data, pos, len - i, m) == UnpickledMap(utf8, ty, data, old(pos), len, map[])
      {
        var e := UnpickleEntry(utf8, ty);
        if e.None? {
          return None;
        }
        m := m[e.value.0 := e.value.1];
      }
      v := Some(Mapping(m));
    }

    method UnpickleList(utf8: seq<byte> -> bool, ty: Type, len: nat) returns (v: Option<Value>)
      requires ty.VecMap?
      modifies this
      ensures (v, pos) == UnpickledList(utf8, ty, data, old(pos), len, [])
      decreases ty, 0, 1
    {
      var entries: seq<(Value, Value)> := [];
      for i := 0 to len
        invariant UnpickledList(utf8, ty, data, pos, len - i, entries) == UnpickledList(utf8, ty, data, old(pos), len, [])
      {
        var e := UnpickleEntry(utf8, ty);
        if e.None? {
          return None;
        }
        entries := entries + [e.value];
      }
      v := Some(Listing(entries));
    }
  }
}
