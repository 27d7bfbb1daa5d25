/** Decoding what was encoded, and the compressed envelope around a record. */
module PickleRoundTrip {
  import opened Common
  import opened DivMod
  import opened Pickle

  /** Every string and map is short enough for its 32-bit length. */
  predicate Fits(o: Ordered)
    decreases o
  {
    match o
    case OString(bytes) => |bytes| < 0x1_0000_0000
    case OJust(v) => Fits(v)
    case OMapping(entries) => Count(entries) < 0x1_0000_0000 && EntriesFit(entries)
    case OListing(entries) => Count(entries) < 0x1_0000_0000 && EntriesFit(entries)
    case _ => true
  }

  predicate EntriesFit(entries: Entries)
    decreases entries
  {
    entries.Nil? || (Fits(entries.key) && Fits(entries.value) && EntriesFit(entries.rest))
  }

  // ----- Encode, then decode ------------------------------------------------------------------

  lemma LengthReads(data: seq<byte>, pos: nat, n: nat, tail: seq<byte>)
    requires n < U32_RANGE && pos <= |data| && data[pos..] == Leb128(n) + tail
    ensures ReadLeb(WIDTH32, data, pos) == (Some(n), pos + |Leb128(n)|)
    ensures pos + |Leb128(n)| <= |data| && data[pos + |Leb128(n)|..] == tail
  {
    LebRun(WIDTH32, data, pos, tail, n, 0, n, 0);
    Advance(data, pos, Leb128(n), tail);
  }

  /** Stepping over a known stretch. */
  lemma Advance(data: seq<byte>, pos: nat, part: seq<byte>, tail: seq<byte>)
    requires pos <= |data| && data[pos..] == part + tail
    ensures pos + |part| <= |data| && data[pos + |part|..] == tail && data[pos..pos + |part|] == part
    ensures part != [] ==> data[pos] == part[0]
  {
    assert data[pos..][|part|..] == data[pos + |part|..];
    assert data[pos..][..|part|] == data[pos..pos + |part|];
    if part != [] {
      assert data[pos..][0] == data[pos];
    }
  }

  lemma Skip(data: seq<byte>, pos: nat, part: seq<byte>, tail: seq<byte>) returns (next: nat)
    requires pos <= |data| && data[pos..] == part + tail
    ensures next == pos + |part| && next <= |data| && data[next..] == tail
  {
    Advance(data, pos, part, tail);
    next := pos + |part|;
  }

  lemma NumberReads(utf8: seq<byte> -> bool, ty: Type, o: Ordered, data: seq<byte>, pos: nat, tail: seq<byte>)
    requires HasType(utf8, ty, o) && o.ONumber?
    requires pos <= |data| && data[pos..] == Pickled(o) + tail
    ensures Unpickled(utf8, ty, data, pos) == (Some(Unordered(o)), pos + |Pickled(o)|)
  {
    var n := o.n % TWO_TO_64;
    var w := match ty case U16 => WIDTH16 case U32 => WIDTH32 case _ => WIDTH64;
    assert n < w.range && (o.n >= 0 ==> n == o.n) && (o.n < 0 ==> n == o.n + TWO_TO_64);
    LebRun(w, data, pos, tail, n, 0, n, 0);
  }

  /** Any value followed by any tail: the value comes back and the position is exactly at the tail. */
  lemma {:induction false} RoundTrip(utf8: seq<byte> -> bool, ty: Type, o: Ordered, data: seq<byte>, pos: nat, tail: seq<byte>)
    requires HasType(utf8, ty, o) && Fits(o)
    requires pos <= |data| && data[pos..] == Pickled(o) + tail
    ensures Unpickled(utf8, ty, data, pos) == (Some(Unordered(o)), pos + |Pickled(o)|)
    decreases o
  {
    hide LebFrom, Leb128, ReadLeb, PickledEntries;
    match o
    case ONumber(_) => NumberReads(utf8, ty, o, data, pos, tail);
    case OTruth(_) => Advance(data, pos, Pickled(o), tail);
    case OString(bytes) => StringReads(utf8, ty, o, data, pos, tail);
    case ONothing => Advance(data, pos, Pickled(o), tail);
    case OJust(v) =>
      Associates([1], Pickled(v), tail);
      Advance(data, pos, [1], Pickled(v) + tail);
      RoundTrip(utf8, ty.inner, v, data, pos + 1, tail);
    case OMapping(entries) =>
      var start := CountReads(utf8, ty, o, data, pos, tail);
      MapRoundTrip(utf8, ty, entries, data, start, tail, map[]);
    case OListing(entries) =>
      var start := CountReads(utf8, ty, o, data, pos, tail);
      ListRoundTrip(utf8, ty, entries, data, start, tail, []);
      assert [] + Listed(entries) == Listed(entries);
  }

  lemma StringReads(utf8: seq<byte> -> bool, ty: Type, o: Ordered, data: seq<byte>, pos: nat, tail: seq<byte>)
    requires HasType(utf8, ty, o) && Fits(o) && o.OString?
    requires pos <= |data| && data[pos..] == Pickled(o) + tail
    ensures Unpickled(utf8, ty, data, pos) == (Some(Unordered(o)), pos + |Pickled(o)|)
  {
    hide LebFrom, Leb128;
    var n := |o.bytes|;
    Associates(Leb128(n), o.bytes, tail);
    LengthReads(data, pos, n, o.bytes + tail);
    Advance(data, pos + |Leb128(n)|, o.bytes, tail);
  }

  /** The entry count of a map, up to its first entry. */
  lemma CountReads(utf8: seq<byte> -> bool, ty: Type, o: Ordered, data: seq<byte>, pos: nat, tail: seq<byte>)
    returns (start: nat)
    requires HasType(utf8, ty, o) && Fits(o) && (o.OMapping? || o.OListing?)
    requires pos <= |data| && data[pos..] == Pickled(o) + tail
    ensures start <= |data| && data[start..] == PickledEntries(o.entries) + tail
    ensures start + |PickledEntries(o.entries)| == pos + |Pickled(o)|
    ensures ty.HashMap? ==> Unpickled(utf8, ty, data, pos) == UnpickledMap(utf8, ty, data, start, Count(o.entries), map[])
    ensures ty.VecMap? ==> Unpickled(utf8, ty, data, pos) == UnpickledList(utf8, ty, data, start, Count(o.entries), [])
  {
    hide LebFrom, Leb128, PickledEntries, UnpickledMap, UnpickledList;
    var n := Count(o.entries);
    Associates(Leb128(n), PickledEntries(o.entries), tail);
    LengthReads(data, pos, n, PickledEntries(o.entries) + tail);
    start := pos + |Leb128(n)|;
  }

  lemma {:induction false} EntryRoundTrip(utf8: seq<byte> -> bool, ty: Type, entries: Entries, data: seq<byte>, pos: nat,
                                          tail: seq<byte>) returns (next: nat)
    requires (ty.HashMap? || ty.VecMap?) && entries.Cons?
    requires EntriesHaveType(utf8, ty.key, ty.value, entries) && EntriesFit(entries)
    requires pos <= |data| && data[pos..] == PickledEntries(entries) + tail
    ensures UnpickledEntry(utf8, ty, data, pos) == (Some((Unordered(entries.key), Unordered(entries.value))), next)
    ensures next <= |data| && data[next..] == PickledEntries(entries.rest) + tail
    ensures next + |PickledEntries(entries.rest)| == pos + |PickledEntries(entries)|
    decreases entries, 0
  {
    hide Pickled, Unpickled, Fits, HasType, Unordered;
    var k, v, rest := Pickled(entries.key), Pickled(entries.value), PickledEntries(entries.rest);
    assert PickledEntries(entries) == k + (v + rest);
    hide PickledEntries;
    Associates(k, v + rest, tail);
    Associates(v, rest, tail);
    RoundTrip(utf8, ty.key, entries.key, data, pos, v + (rest + tail));
    var middle := Skip(data, pos, k, v + (rest + tail));
    RoundTrip(utf8, ty.value, entries.value, data, middle, rest + tail);
    next := Skip(data, middle, v, rest + tail);
  }

  lemma {:induction false} MapRoundTrip(utf8: seq<byte> -> bool, ty: Type, entries: Entries, data: seq<byte>, pos: nat,
                                        tail: seq<byte>, m: map<Value, Value>)
    requires ty.HashMap? && EntriesHaveType(utf8, ty.key, ty.value, entries) && EntriesFit(entries)
    requires pos <= |data| && data[pos..] == PickledEntries(entries) + tail
    ensures UnpickledMap(utf8, ty, data, pos, Count(entries), m)
         == (Some(Mapping(Inserted(m, entries))), pos + |PickledEntries(entries)|)
    decreases entries, 1
  {
    if entries.Nil? {
    } else {
      var next := EntryRoundTrip(utf8, ty, entries, data, pos, tail);
      MapRoundTrip(utf8, ty, entries.rest, data, next, tail, m[Unordered(entries.key) := Unordered(entries.value)]);
    }
  }

  lemma {:induction false} ListRoundTrip(utf8: seq<byte> -> bool, ty: Type, entries: Entries, data: seq<byte>, pos: nat,
                                         tail: seq<byte>, listed: seq<(Value, Value)>)
    requires ty.VecMap? && EntriesHaveType(utf8, ty.key, ty.value, entries) && EntriesFit(entries)
    requires pos <= |data| && data[pos..] == PickledEntries(entries) + tail
    ensures UnpickledList(utf8, ty, data, pos, Count(entries), listed)
         == (Some(Listing(listed + Listed(entries))), pos + |PickledEntries(entries)|)
    decreases entries, 1
  {
    if entries.Cons? {
      var next := EntryRoundTrip(utf8, ty, entries, data, pos, tail);
      var first := (Unordered(entries.key), Unordered(entries.value));
      ListRoundTrip(utf8, ty, entries.rest, data, next, tail, listed + [first]);
      Associates(listed, [first], Listed(entries.rest));
    } else {
      assert listed + [] == listed;
    }
  }

  // ----- Exactly when -------------------------------------------------------------------------

  /** Every string and map inside a value is short enough for a 32-bit length. */
  predicate ValueFits(v: Value) {
    match v
    case String(bytes) => |bytes| < 0x1_0000_0000
    case Just(v') => ValueFits(v')
    case Mapping(m) => |m| < 0x1_0000_0000 && forall k :: k in m ==> ValueFits(k) && ValueFits(m[k])
    case Listing(entries) => |entries| < 0x1_0000_0000 && forall i :: 0 <= i < |entries| ==> ValueFits(entries[i].0) && ValueFits(entries[i].1)
    case _ => true
  }

  /** A length that is read fits 32 bits, even when the fifth group carries too many. */
  lemma {:induction false} LengthsFit(data: seq<byte>, pos: nat, i: nat, result: nat)
    requires i <= 5 && (i < 5 ==> result < Pow(128, i)) && result < U32_RANGE
    requires LebFrom(WIDTH32, data, pos, i, result).Some?
    ensures LebFrom(WIDTH32, data, pos, i, result).value.0 < U32_RANGE
    decreases 5 - i
  {
    var group := data[pos] % 128;
    GroupFits(i, group, result);
    if data[pos] < 128 {
    } else {
      LengthsFit(data, pos + 1, i + 1, result + group * Pow(128, i) % U32_RANGE);
    }
  }

  lemma GroupFits(i: nat, group: nat, result: nat)
    requires i < 5 && group < 128 && result < Pow(128, i)
    ensures var next := result + group * Pow(128, i) % U32_RANGE;
            next < U32_RANGE && (i < 4 ==> next < Pow(128, i + 1))
  {
    assert Pow(128, 0) == 1 && Pow(128, 1) == 128 && Pow(128, 2) == 16384;
    assert Pow(128, 3) == 2097152 && Pow(128, 4) == 268435456;
    if i == 4 {
      DivUnique(group * 268435456, U32_RANGE, group / 16, group % 16 * 268435456);
    }
  }

  /** Whatever is decoded has lengths that fit. */
  lemma {:induction false} DecodedFits(utf8: seq<byte> -> bool, ty: Type, data: seq<byte>, pos: nat)
    requires Unpickled(utf8, ty, data, pos).0.Some?
    ensures ValueFits(Unpickled(utf8, ty, data, pos).0.value)
    decreases ty, 1, 0
  {
    hide LebFrom;
    match ty
    case Text => LengthReadFits(data, pos);
    case Optional(inner) =>
      if data[pos] == 1 {
        DecodedFits(utf8, inner, data, pos + 1);
      }
    case HashMap(_, _) =>
      LengthReadFits(data, pos);
      var r := ReadLeb(WIDTH32, data, pos);
      DecodedMapFits(utf8, ty, data, r.1, r.0.value, map[]);
    case VecMap(_, _) =>
      LengthReadFits(data, pos);
      var r := ReadLeb(WIDTH32, data, pos);
      DecodedListFits(utf8, ty, data, r.1, r.0.value, []);
    case _ =>
  }

  lemma LengthReadFits(data: seq<byte>, pos: nat)
    ensures var r := ReadLeb(WIDTH32, data, pos).0; r.Some? ==> r.value < U32_RANGE
  {
    if ReadLeb(WIDTH32, data, pos).0.Some? {
      LengthsFit(data, pos, 0, 0);
    }
  }

  lemma {:induction false} DecodedMapFits(utf8: seq<byte> -> bool, ty: Type, data: seq<byte>, pos: nat, n: nat, m: map<Value, Value>)
    requires ty.HashMap? && UnpickledMap(utf8, ty, data, pos, n, m).0.Some?
    requires |m| + n < U32_RANGE && forall k :: k in m ==> ValueFits(k) && ValueFits(m[k])
    ensures ValueFits(UnpickledMap(utf8, ty, data, pos, n, m).0.value)
    decreases ty, 0, n
  {
    if n == 0 {
    } else {
      var first := Unpickled(utf8, ty.key, data, pos);
      DecodedFits(utf8, ty.key, data, pos);
      DecodedFits(utf8, ty.value, data, first.1);
      var (e, next) := UnpickledEntry(utf8, ty, data, pos);
      var m' := m[e.value.0 := e.value.1];
      assert m'.Keys == m.Keys + {e.value.0};
      DecodedMapFits(utf8, ty, data, next, n - 1, m');
    }
  }

  lemma {:induction false} DecodedListFits(utf8: seq<byte> -> bool, ty: Type, data: seq<byte>, pos: nat, n: nat,
                                           entries: seq<(Value, Value)>)
    requires ty.VecMap? && UnpickledList(utf8, ty, data, pos, n, entries).0.Some?
    requires |entries| + n < U32_RANGE
    requires forall i :: 0 <= i < |entries| ==> ValueFits(entries[i].0) && ValueFits(entries[i].1)
    ensures ValueFits(UnpickledList(utf8, ty, data, pos, n, entries).0.value)
    decreases ty, 0, n
  {
    if n == 0 {
    } else {
      var first := Unpickled(utf8, ty.key, data, pos);
      DecodedFits(utf8, ty.key, data, pos);
      DecodedFits(utf8, ty.value, data, first.1);
      var (e, next) := UnpickledEntry(utf8, ty, data, pos);
      DecodedListFits(utf8, ty, data, next, n - 1, entries + [e.value]);
    }
  }

  /** Every entry is present in a map. */
  predicate Covered(entries: Entries, m: map<Value, Value>) {
    entries.Nil?
    || (Unordered(entries.key) in m && m[Unordered(entries.key)] == Unordered(entries.value) && Covered(entries.rest, m))
  }

  /** Distinct keys are all kept, whatever the order of insertion. */
  lemma {:induction false} InsertionKeepsAll(m: map<Value, Value>, entries: Entries)
    requires DistinctKeys(entries) && forall k :: k in m ==> !HasKey(entries, k)
    ensures var all := Inserted(m, entries);
            && |all| == |m| + Count(entries)
            && Covered(entries, all)
            && forall k :: k in m ==> k in all && all[k] == m[k]
    decreases entries
  {
    if entries.Nil? {
    } else {
      var k := Unordered(entries.key);
      assert HasKey(entries, k) && k !in m;
      var m' := m[k := Unordered(entries.value)];
      assert m'.Keys == m.Keys + {k};
      assert forall j :: j in m' ==> !HasKey(entries.rest, j);
      InsertionKeepsAll(m', entries.rest);
      assert k in m';
    }
  }

  lemma {:induction false} CoveredEntriesFit(utf8: seq<byte> -> bool, key: Type, value: Type, entries: Entries, m: map<Value, Value>)
    requires EntriesHaveType(utf8, key, value, entries) && Covered(entries, m) && ValueFits(Mapping(m))
    ensures EntriesFit(entries)
    decreases entries, 0
  {
    if entries.Nil? {
    } else {
      FitsFromValue(utf8, key, entries.key);
      FitsFromValue(utf8, value, entries.value);
      CoveredEntriesFit(utf8, key, value, entries.rest, m);
    }
  }

  lemma {:induction false} ListedEntriesFit(utf8: seq<byte> -> bool, key: Type, value: Type, entries: Entries)
    requires EntriesHaveType(utf8, key, value, entries)
    requires forall i :: 0 <= i < |Listed(entries)| ==> ValueFits(Listed(entries)[i].0) && ValueFits(Listed(entries)[i].1)
    ensures EntriesFit(entries)
    decreases entries, 0
  {
    if entries.Nil? {
    } else {
      assert Listed(entries)[0] == (Unordered(entries.key), Unordered(entries.value));
      assert forall i :: 0 <= i < |Listed(entries.rest)| ==> Listed(entries.rest)[i] == Listed(entries)[i + 1];
      FitsFromValue(utf8, key, entries.key);
      FitsFromValue(utf8, value, entries.value);
      ListedEntriesFit(utf8, key, value, entries.rest);
    }
  }

  lemma {:induction false} ListedCount(entries: Entries)
    ensures |Listed(entries)| == Count(entries)
  {
    if entries.Nil? {
    } else {
      ListedCount(entries.rest);
    }
  }

  lemma {:induction false} FitsFromValue(utf8: seq<byte> -> bool, ty: Type, o: Ordered)
    requires HasType(utf8, ty, o) && ValueFits(Unordered(o))
    ensures Fits(o)
    decreases o, 1
  {
    match o
    case OJust(v) => FitsFromValue(utf8, ty.inner, v);
    case OMapping(entries) =>
      InsertionKeepsAll(map[], entries);
      CoveredEntriesFit(utf8, ty.key, ty.value, entries, Inserted(map[], entries));
    case OListing(entries) =>
      ListedCount(entries);
      ListedEntriesFit(utf8, ty.key, ty.value, entries);
    case _ =>
  }

  predicate RoundTrips(utf8: seq<byte> -> bool, ty: Type, o: Ordered, before: seq<byte>, tail: seq<byte>) {
    Unpickled(utf8, ty, before + Pickled(o) + tail, |before|) == (Some(Unordered(o)), |before| + |Pickled(o)|)
  }

  /**
   A value survives pickling, between any bytes, exactly when its strings and maps are shorter than 2^32;
   beyond that the stored length is truncated.
   */
  lemma RoundTripExactly(utf8: seq<byte> -> bool, ty: Type, o: Ordered)
    requires HasType(utf8, ty, o)
    ensures (forall before, tail :: RoundTrips(utf8, ty, o, before, tail)) <==> Fits(o)
  {
    if Fits(o) {
      forall before, tail
        ensures RoundTrips(utf8, ty, o, before, tail)
      {
        var data := before + Pickled(o) + tail;
        assert data[|before|..] == Pickled(o) + tail;
        RoundTrip(utf8, ty, o, data, |before|, tail);
      }
    } else if RoundTrips(utf8, ty, o, [], []) {
      DecodedFits(utf8, ty, [] + Pickled(o) + [], 0);
      FitsFromValue(utf8, ty, o);
    }
  }

  /** Two iteration orders of the same map are encoded differently but decode to the same value. */
  lemma OrderIsIrrelevant(utf8: seq<byte> -> bool, ty: Type, o: Ordered, o': Ordered)
    requires HasType(utf8, ty, o) && HasType(utf8, ty, o') && Fits(o) && Fits(o') && Unordered(o) == Unordered(o')
    ensures Unpickled(utf8, ty, Pickled(o), 0).0 == Unpickled(utf8, ty, Pickled(o'), 0).0
  {
    assert Pickled(o)[0..] == Pickled(o) + [] && Pickled(o')[0..] == Pickled(o') + [];
    RoundTrip(utf8, ty, o, Pickled(o), 0, []);
    RoundTrip(utf8, ty, o', Pickled(o'), 0, []);
  }

  // ----- The compressed envelope --------------------------------------------------------------

  /** LZ4 block compression: undone when the original size is given, and never giving more than that size. */
  datatype Lz4 = Lz4(compress: seq<byte> -> seq<byte>, decompress: (nat, seq<byte>) -> Option<seq<byte>>)

  ghost predicate Inverts(lz4: Lz4) {
    forall input: seq<byte> :: lz4.decompress(|input|, lz4.compress(input)) == Some(input)
  }

  ghost predicate Sized(lz4: Lz4) {
    forall n: nat, data: seq<byte> :: lz4.decompress(n, data).Some? ==> |lz4.decompress(n, data).value| <= n
  }

  const COMPRESS_MARKER: nat := 128
  const COMPRESS_WATERMARK: nat := 8192

  function LittleEndian32(n: nat): seq<byte>
    requires n < U32_RANGE
    ensures |LittleEndian32(n)| == 4
  {
    [n % 256, n / 256 % 256, n / 65536 % 256, n / 16777216]
  }

  function FromLittleEndian32(b: seq<byte>): nat
    requires |b| == 4
  {
    b[0] as int + b[1] as int * 256 + b[2] as int * 65536 + b[3] as int * 16777216
  }

  /** `maybe_compress_pickle` on a version byte and its payload. */
  function Sealed(lz4: Lz4, version: byte, payload: seq<byte>): seq<byte> {
    var compressed := lz4.compress(payload);
    if |payload| > COMPRESS_WATERMARK && |compressed| < |payload| then
      [if version < COMPRESS_MARKER then version + COMPRESS_MARKER else version]
      + LittleEndian32(|payload| % U32_RANGE) + compressed
    else [version] + payload
  }

  /** `PickledStream::new`: the payload and the version. */
  function Opened(lz4: Lz4, data: seq<byte>): Option<(seq<byte>, byte)> {
    if data == [] then None
    else
      var version := data[0] % COMPRESS_MARKER;
      if data[0] < COMPRESS_MARKER then Some((data[1..], version))
      else if |data| < 5 then None
      else
        match lz4.decompress(FromLittleEndian32(data[1..5]), data[5..])
        case None => None
        case Some(payload) => Some((payload, version))
  }

  /**
   The envelope returns payload and version, compressed or not, exactly for versions below 128 and payloads whose
   size fits 32 bits or that compression would not shorten.
   */
  lemma EnvelopeRoundTripExactly(lz4: Lz4, version: byte, payload: seq<byte>)
    requires Inverts(lz4) && Sized(lz4)
    ensures Opened(lz4, Sealed(lz4, version, payload)) == Some((payload, version))
       <==> version < 128 && (|payload| < 0x1_0000_0000 || |lz4.compress(payload)| >= |payload|)
  {
    var data := Sealed(lz4, version, payload);
    if version < COMPRESS_MARKER {
      if |payload| < U32_RANGE || |lz4.compress(payload)| >= |payload| {
        SealedOpens(lz4, version, payload);
      } else {
        TruncatedDoesNotOpen(lz4, version, payload);
      }
    } else {
      assert data[0] == version;
      if Opened(lz4, data).Some? {
        OpenedVersion(lz4, data);
      }
    }
  }

  lemma OpenedVersion(lz4: Lz4, data: seq<byte>)
    requires data != [] && Opened(lz4, data).Some?
    ensures Opened(lz4, data).value.1 == data[0] % COMPRESS_MARKER
  {}

  lemma SealedOpens(lz4: Lz4, version: byte, payload: seq<byte>)
    requires Inverts(lz4) && version < COMPRESS_MARKER
    requires |payload| < U32_RANGE || |lz4.compress(payload)| >= |payload|
    ensures Opened(lz4, Sealed(lz4, version, payload)) == Some((payload, version))
  {
    hide LittleEndian32, FromLittleEndian32;
    var compressed := lz4.compress(payload);
    if |payload| > COMPRESS_WATERMARK && |compressed| < |payload| {
      hide Opened;
      var size := LittleEndian32(|payload|);
      LittleEndianReads(|payload|);
      assert Sealed(lz4, version, payload) == [version + COMPRESS_MARKER] + size + compressed;
      Envelope(lz4, version + COMPRESS_MARKER, size, compressed);
    } else {
      assert ([version] + payload)[1..] == payload;
    }
  }

  /** A size that does not fit is stored modulo 2^32, which the payload exceeds. */
  lemma TruncatedDoesNotOpen(lz4: Lz4, version: byte, payload: seq<byte>)
    requires Sized(lz4) && version < COMPRESS_MARKER
    requires |payload| >= U32_RANGE && |lz4.compress(payload)| < |payload|
    ensures Opened(lz4, Sealed(lz4, version, payload)) != Some((payload, version))
  {
    hide LittleEndian32, FromLittleEndian32;
    var compressed := lz4.compress(payload);
    hide Opened;
    var size := LittleEndian32(|payload| % U32_RANGE);
    LittleEndianReads(|payload| % U32_RANGE);
    assert Sealed(lz4, version, payload) == [version + COMPRESS_MARKER] + size + compressed;
    Envelope(lz4, version + COMPRESS_MARKER, size, compressed);
  }

  lemma Envelope(lz4: Lz4, marker: byte, size: seq<byte>, compressed: seq<byte>)
    requires marker >= COMPRESS_MARKER && |size| == 4
    ensures Opened(lz4, [marker] + size + compressed)
         == match lz4.decompress(FromLittleEndian32(size), compressed)
            case None => None
            case Some(payload) => Some((payload, (marker % COMPRESS_MARKER) as byte))
  {
    var data := [marker] + size + compressed;
    assert data[1..5] == size && data[5..] == compressed;
  }

  lemma LittleEndianReads(n: nat)
    requires n < U32_RANGE
    ensures FromLittleEndian32(LittleEndian32(n)) == n
  {
    var a, b := n / 256, n / 65536;
    DivUnique(a, 256, b, n / 256 % 256);
    assert n == a * 256 + n % 256 && a == a / 256 * 256 + a % 256;
  }
}
