/** What the bytes of an encoding mean, and which bytes are refused. */
module PickleFormat {
  import opened Common
  import opened DivMod
  import opened Pickle
  import opened PickleRoundTrip

  // ----- Numbers ------------------------------------------------------------------------------

  /** The number of groups of seven bits, the lowest first. */
  function GroupsValue(bytes: seq<byte>): nat {
    if bytes == [] then 0 else bytes[0] % 128 + 128 * GroupsValue(bytes[1..])
  }

  /** All groups but the last carry the continuation bit; the groups are the number; no group is superfluous. */
  lemma {:induction false} LebIsGroups(n: nat)
    ensures var bytes := Leb128(n);
            && GroupsValue(bytes) == n
            && (forall i :: 0 <= i < |bytes| ==> (bytes[i] >= 128 <==> i < |bytes| - 1))
            && (|bytes| > 1 ==> bytes[|bytes| - 1] != 0)
  {
    if n >= 128 {
      var rest := Leb128(n / 128);
      LebIsGroups(n / 128);
      var bytes := Leb128(n);
      assert bytes == [n % 128 + 128] + rest && bytes[1..] == rest;
      forall i | 0 <= i < |bytes|
        ensures bytes[i] >= 128 <==> i < |bytes| - 1
      {
        assert i > 0 ==> bytes[i] == rest[i - 1];
      }
    } else {
      assert [n as byte][1..] == [];
    }
  }

  // ----- More bytes ---------------------------------------------------------------------------

  /** What is read does not depend on what comes behind it. */
  lemma {:induction false} LebLocal(w: Width, data: seq<byte>, more: seq<byte>, pos: nat, i: nat, result: nat)
    requires w.range > 0 && LebFrom(w, data, pos, i, result).Some?
    ensures LebFrom(w, data + more, pos, i, result) == LebFrom(w, data, pos, i, result)
    ensures pos < LebFrom(w, data, pos, i, result).value.1 <= |data|
    decreases |data| - pos
  {
    hide Pow;
    assert (data + more)[pos] == data[pos];
    if data[pos] >= 128 {
      LebLocal(w, data, more, pos + 1, i + 1, result + data[pos] % 128 * Pow(128, i) % w.range);
    }
  }

  lemma ReadLocal(w: Width, data: seq<byte>, more: seq<byte>, pos: nat)
    requires w.range > 0 && ReadLeb(w, data, pos).0.Some?
    ensures ReadLeb(w, data + more, pos) == ReadLeb(w, data, pos) && pos <= ReadLeb(w, data, pos).1 <= |data|
  {
    LebLocal(w, data, more, pos, 0, 0);
  }

  lemma {:induction false} DecodeLocal(utf8: seq<byte> -> bool, ty: Type, data: seq<byte>, more: seq<byte>, pos: nat)
    requires pos <= |data| && Unpickled(utf8, ty, data, pos).0.Some?
    ensures Unpickled(utf8, ty, data + more, pos) == Unpickled(utf8, ty, data, pos)
    ensures pos <= Unpickled(utf8, ty, data, pos).1 <= |data|
    decreases ty, 1, 0
  {
    hide LebFrom, ReadLeb, UnpickledMap, UnpickledList;
    var w := match ty case U16 => WIDTH16 case U64 => WIDTH64 case I64 => WIDTH64 case _ => WIDTH32;
    if !ty.Boolean? && !ty.Optional? {
      ReadLocal(w, data, more, pos);
    }
    match ty
    case Text =>
      var (n, next) := ReadLeb(WIDTH32, data, pos);
      assert (data + more)[next..next + n.value] == data[next..next + n.value];
    case Boolean => assert (data + more)[pos] == data[pos];
    case Optional(inner) =>
      assert (data + more)[pos] == data[pos];
      if data[pos] == 1 {
        DecodeLocal(utf8, inner, data, more, pos + 1);
      }
    case HashMap(_, _) =>
      var (n, next) := ReadLeb(WIDTH32, data, pos);
      MapLocal(utf8, ty, data, more, next, n.value, map[]);
    case VecMap(_, _) =>
      var (n, next) := ReadLeb(WIDTH32, data, pos);
      ListLocal(utf8, ty, data, more, next, n.value, []);
    case _ =>
  }

  lemma {:induction false} EntryLocal(utf8: seq<byte> -> bool, ty: Type, data: seq<byte>, more: seq<byte>, pos: nat)
    requires ty.HashMap? || ty.VecMap?
    requires pos <= |data| && UnpickledEntry(utf8, ty, data, pos).0.Some?
    ensures UnpickledEntry(utf8, ty, data + more, pos) == UnpickledEntry(utf8, ty, data, pos)
    ensures pos <= UnpickledEntry(utf8, ty, data, pos).1 <= |data|
    decreases ty, 0, 0
  {
    hide Unpickled;
    DecodeLocal(utf8, ty.key, data, more, pos);
    DecodeLocal(utf8, ty.value, data, more, Unpickled(utf8, ty.key, data, pos).1);
  }

  lemma {:induction false} MapLocal(utf8: seq<byte> -> bool, ty: Type, data: seq<byte>, more: seq<byte>, pos: nat, n: nat,
                                    m: map<Value, Value>)
    requires ty.HashMap? && pos <= |data| && UnpickledMap(utf8, ty, data, pos, n, m).0.Some?
    ensures UnpickledMap(utf8, ty, data + more, pos, n, m) == UnpickledMap(utf8, ty, data, pos, n, m)
    ensures pos <= UnpickledMap(utf8, ty, data, pos, n, m).1 <= |data|
    decreases ty, 0, n + 1
  {
    hide UnpickledEntry;
    if n > 0 {
      EntryLocal(utf8, ty, data, more, pos);
      var (e, next) := UnpickledEntry(utf8, ty, data, pos);
      MapLocal(utf8, ty, data, more, next, n - 1, m[e.value.0 := e.value.1]);
    }
  }

  lemma {:induction false} ListLocal(utf8: seq<byte> -> bool, ty: Type, data: seq<byte>, more: seq<byte>, pos: nat, n: nat,
                                     entries: seq<(Value, Value)>)
    requires ty.VecMap? && pos <= |data| && UnpickledList(utf8, ty, data, pos, n, entries).0.Some?
    ensures UnpickledList(utf8, ty, data + more, pos, n, entries) == UnpickledList(utf8, ty, data, pos, n, entries)
    ensures pos <= UnpickledList(utf8, ty, data, pos, n, entries).1 <= |data|
    decreases ty, 0, n + 1
  {
    hide UnpickledEntry;
    if n > 0 {
      EntryLocal(utf8, ty, data, more, pos);
      var (e, next) := UnpickledEntry(utf8, ty, data, pos);
      ListLocal(utf8, ty, data, more, next, n - 1, entries + [e.value]);
    }
  }

  // ----- Refusals -----------------------------------------------------------------------------

  /** An encoding that is cut off anywhere is refused. */
  lemma TruncationIsRefused(utf8: seq<byte> -> bool, ty: Type, o: Ordered, k: nat)
    requires HasType(utf8, ty, o) && Fits(o) && k < |Pickled(o)|
    ensures Unpickled(utf8, ty, Pickled(o)[..k], 0).0 == None
  {
    var all := Pickled(o);
    assert all[..k] + all[k..] == all && all[0..] == all + [];
    RoundTrip(utf8, ty, o, all, 0, []);
    if Unpickled(utf8, ty, all[..k], 0).0.Some? {
      DecodeLocal(utf8, ty, all[..k], all[k..], 0);
    }
  }

  /** Bytes that stand for no truth value or option, text that is not UTF-8, and numbers of too many groups. */
  lemma BadBytesAreRefused(utf8: seq<byte> -> bool, inner: Type, data: seq<byte>, pos: nat)
    requires pos < |data|
    ensures data[pos] > 1 ==> Unpickled(utf8, Boolean, data, pos).0 == None && Unpickled(utf8, Optional(inner), data, pos).0 == None
    ensures Unpickled(utf8, Text, data, pos).0.Some? ==>
              exists bytes :: Unpickled(utf8, Text, data, pos).0 == Some(String(bytes)) && utf8(bytes)
    ensures (forall i :: pos <= i < pos + 3 && i < |data| ==> data[i] >= 128) ==> Unpickled(utf8, U16, data, pos).0 == None
    ensures (forall i :: pos <= i < pos + 5 && i < |data| ==> data[i] >= 128) ==> Unpickled(utf8, U32, data, pos).0 == None
    ensures (forall i :: pos <= i < pos + 10 && i < |data| ==> data[i] >= 128) ==>
              Unpickled(utf8, U64, data, pos).0 == None && Unpickled(utf8, I64, data, pos).0 == None
  {
    hide LebFrom;
    if forall i :: pos <= i < pos + 3 && i < |data| ==> data[i] >= 128 {
      TooManyGroups(WIDTH16, data, pos, 0, 0);
    }
    if forall i :: pos <= i < pos + 5 && i < |data| ==> data[i] >= 128 {
      TooManyGroups(WIDTH32, data, pos, 0, 0);
    }
    if forall i :: pos <= i < pos + 10 && i < |data| ==> data[i] >= 128 {
      TooManyGroups(WIDTH64, data, pos, 0, 0);
    }
  }

  lemma {:induction false} TooManyGroups(w: Width, data: seq<byte>, pos: nat, i: nat, result: nat)
    requires w.range > 0 && i <= w.groups
    requires forall j :: pos <= j < pos + w.groups - i && j < |data| ==> data[j] >= 128
    ensures LebFrom(w, data, pos, i, result) == None
    decreases |data| - pos
  {
    hide Pow;
    if i < w.groups && pos < |data| {
      TooManyGroups(w, data, pos + 1, i + 1, result + data[pos] % 128 * Pow(128, i) % w.range);
    }
  }

  // ----- Envelope -----------------------------------------------------------------------------

  /** Only payloads of more than 8192 bytes are compressed, only if that shortens them, and the mark is the top bit. */
  lemma SealedShape(lz4: Lz4, version: byte, payload: seq<byte>)
    requires version < 128
    ensures var data, compressed := Sealed(lz4, version, payload), lz4.compress(payload);
            && data != [] && data[0] % 128 == version
            && (data[0] >= 128 <==> |payload| > 8192 && |compressed| < |payload|)
            && (data[0] < 128 ==> data[1..] == payload)
            && (data[0] >= 128 ==> |data| == 5 + |compressed| && data[5..] == compressed
                                   && data[1] as int + data[2] as int * 256 + data[3] as int * 65536
                                      + data[4] as int * 16777216 == |payload| % 0x1_0000_0000)
  {
    hide LittleEndian32;
    var compressed, n := lz4.compress(payload), |payload| % U32_RANGE;
    LittleEndianReads(n);
    var size := LittleEndian32(n);
    assert ([version + COMPRESS_MARKER] + size + compressed)[5..] == compressed;
    assert ([version] + payload)[1..] == payload;
  }

  /** Data without a version byte, or marked as compressed but too short for a size, are refused. */
  lemma ShortEnvelope(lz4: Lz4, data: seq<byte>)
    ensures data == [] || (data[0] >= 128 && |data| < 5) ==> Opened(lz4, data) == None
    ensures data != [] && data[0] < 128 ==> Opened(lz4, data) == Some((data[1..], data[0]))
  {}
}
