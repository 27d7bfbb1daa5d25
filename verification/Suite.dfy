/**
 The personal-suite records (crates/common/src/suite.rs) in the ordered byte-key property space they share with
 the keys of accounts.
 */
module Suite {
  import opened Common

  type Bytes = seq<byte>

  /** The account id no account has. */
  const SENTINEL: Bytes := [0xFF, 0xFF, 0xFF, 0xFF]

  datatype Codec<!T> = Codec(serialize: T -> Result<Bytes, string>, deserialize: Bytes -> Result<T, string>)

  // ----- Byte order ---------------------------------------------------------------------------

  predicate LexLe(a: Bytes, b: Bytes) {
    a == [] || (b != [] && (a[0] < b[0] || (a[0] == b[0] && LexLe(a[1..], b[1..]))))
  }

  lemma {:induction false} LexOrder(a: Bytes, b: Bytes, c: Bytes)
    ensures LexLe(a, b) || LexLe(b, a)
    ensures LexLe(a, b) && LexLe(b, a) ==> a == b
    ensures LexLe(a, b) && LexLe(b, c) ==> LexLe(a, c)
    decreases |a|
  {
    if a == [] {
    } else {
      LexOrder(a[1..], if b == [] then [] else b[1..], if c == [] then [] else c[1..]);
      assert a == [a[0]] + a[1..];
      if b != [] {
        assert b == [b[0]] + b[1..];
      }
    }
  }

  lemma {:induction false} LexPrefix(prefix: Bytes, a: Bytes, b: Bytes)
    ensures LexLe(prefix + a, prefix + b) <==> LexLe(a, b)
  {
    if prefix == [] {
      assert prefix + a == a && prefix + b == b;
    } else {
      LexPrefix(prefix[1..], a, b);
      assert (prefix + a)[1..] == prefix[1..] + a && (prefix + b)[1..] == prefix[1..] + b;
    }
  }

  // ----- Keys ---------------------------------------------------------------------------------

  predicate Continuation(b: byte) { 0x80 <= b < 0xC0 }

  /** Octets a Rust `str` may hold: sequences of lead byte and continuations. */
  predicate Utf8(s: Bytes) {
    if s == [] then true
    else if s[0] < 0x80 then Utf8(s[1..])
    else if 0xC2 <= s[0] < 0xE0 then |s| >= 2 && Continuation(s[1]) && Utf8(s[2..])
    else if 0xE0 <= s[0] < 0xF0 then |s| >= 3 && Continuation(s[1]) && Continuation(s[2]) && Utf8(s[3..])
    else 0xF0 <= s[0] < 0xF5 && |s| >= 4
         && Continuation(s[1]) && Continuation(s[2]) && Continuation(s[3]) && Utf8(s[4..])
  }

  lemma {:induction false} Utf8BelowSentinel(s: Bytes)
    requires Utf8(s)
    ensures forall i :: 0 <= i < |s| ==> s[i] < 0xF5
  {
    if s == [] {
    } else {
      var n := if s[0] < 0x80 then 1 else if s[0] < 0xE0 then 2 else if s[0] < 0xF0 then 3 else 4;
      Utf8BelowSentinel(s[n..]);
      forall i | n <= i < |s|
        ensures s[i] < 0xF5
      {
        assert s[i] == s[n..][i - n];
      }
    }
  }

  function RecordKey(kind: byte, id: Bytes): Bytes { SENTINEL + [kind] + id }

  predicate IsRecordKey(key: Bytes) { |key| >= 5 && key[..4] == SENTINEL && Utf8(key[5..]) }

  /** Keys of accounts start with a four-byte account id, never that of the sentinel. */
  predicate IsAccountKey(key: Bytes) { |key| >= 4 && key[..4] != SENTINEL }

  lemma KeyParts(kind: byte, id: Bytes)
    ensures var key := RecordKey(kind, id);
            |key| == 5 + |id| && key[..4] == SENTINEL && key[4] == kind && key[5..] == id
  {
    assert RecordKey(kind, id)[..4] == SENTINEL;
  }

  /** Distinct kinds or ids never share a key. */
  lemma KeyInjective(kind: byte, id: Bytes, kind': byte, id': Bytes)
    ensures RecordKey(kind, id) == RecordKey(kind', id') <==> kind == kind' && id == id'
  {
    KeyParts(kind, id);
    KeyParts(kind', id');
  }

  // ----- Ranges -------------------------------------------------------------------------------

  function RangeStart(kind: byte): Bytes { SENTINEL + [kind] }

  function RangeEnd(kind: byte): Bytes { SENTINEL + [kind] + seq(16, _ => 0xFF) }

  predicate InRange(key: Bytes, from: Bytes, to: Bytes) { LexLe(from, key) && LexLe(key, to) }

  lemma AccountsSortBelow(key: Bytes, kind: byte)
    requires IsAccountKey(key)
    ensures !LexLe(RangeStart(kind), key)
  {
    var from := RangeStart(kind);
    assert key[..4] == [key[0], key[1], key[2], key[3]];
    assert key[1..][1..] == key[2..] && key[2..][1..] == key[3..] && key[3..][1..] == key[4..];
    assert from == [0xFF, 0xFF, 0xFF, 0xFF, kind];
    assert from[1..][1..] == from[2..] && from[2..][1..] == from[3..];
    assert LexLe(from[3..], key[3..]) ==> key[3] == 0xFF;
    assert LexLe(from[2..], key[2..]) ==> key[2] == 0xFF && LexLe(from[3..], key[3..]);
    assert LexLe(from[1..], key[1..]) ==> key[1] == 0xFF && LexLe(from[2..], key[2..]);
  }

  /** The scanned range holds the records of its kind, whatever their length, and nothing else. */
  lemma InRangeExactly(key: Bytes, kind: byte)
    requires IsRecordKey(key) || IsAccountKey(key)
    ensures InRange(key, RangeStart(kind), RangeEnd(kind)) <==> IsRecordKey(key) && key[4] == kind
    ensures key != RangeEnd(kind)
  {
    if IsAccountKey(key) {
      AccountsSortBelow(key, kind);
      assert RangeEnd(kind)[..4] == SENTINEL;
    } else {
      var id := key[5..];
      var ones: Bytes := seq(16, _ => 0xFF);
      Utf8BelowSentinel(id);
      assert key == SENTINEL + ([key[4]] + id);
      assert RangeEnd(kind) == SENTINEL + ([kind] + ones);
      LexPrefix(SENTINEL, [kind], [key[4]] + id);
      LexPrefix(SENTINEL, [key[4]] + id, [kind] + ones);
      assert ([key[4]] + id)[1..] == id && ([kind] + ones)[1..] == ones;
      assert RangeEnd(kind)[5] == 0xFF;
    }
  }

  // ----- Histories ----------------------------------------------------------------------------

  /** Calls of this module, and writes of the rest of the server to the keys of accounts. */
  datatype Op<T> =
    | Put(kind: byte, id: Bytes, value: T)
    | Delete(kind: byte, id: Bytes)
    | SetAccountKey(key: Bytes, bytes: Bytes)
    | ClearAccountKey(key: Bytes)

  predicate LegalOp<T>(op: Op<T>) {
    match op
    case Put(_, id, _) => Utf8(id)
    case Delete(_, id) => Utf8(id)
    case SetAccountKey(key, _) => IsAccountKey(key)
    case ClearAccountKey(key) => IsAccountKey(key)
  }

  /** What the last call that wrote or deleted a record left of it. */
  function LastWrite<T>(ops: seq<Op<T>>, codec: Codec<T>, kind: byte, id: Bytes, before: Option<Bytes>): Option<Bytes> {
    if ops == [] then before
    else
      var last := ops[|ops| - 1];
      if last.Put? && last.kind == kind && last.id == id && codec.serialize(last.value).Ok? then
        Some(codec.serialize(last.value).value)
      else if last.Delete? && last.kind == kind && last.id == id then None
      else LastWrite(ops[..|ops| - 1], codec, kind, id, before)
  }

  predicate Ascending(ids: seq<Bytes>) {
    forall i, j :: 0 <= i < j < |ids| ==> LexLe(ids[i], ids[j]) && ids[i] != ids[j]
  }

  /** The same ids have only one ascending order, so a listing is determined. */
  lemma {:induction false} AscendingIsUnique(a: seq<Bytes>, b: seq<Bytes>)
    requires Ascending(a) && Ascending(b) && forall id :: id in a <==> id in b
    ensures a == b
    decreases |a|
  {
    assert forall i :: 0 <= i < |a| ==> a[i] in b;
    assert forall i :: 0 <= i < |b| ==> b[i] in a;
    if a != [] && b != [] {
      LexOrder(a[0], b[0], a[0]);
      assert a[0] == b[0];
      assert forall id :: id in a[1..] <==> id in a && id != a[0];
      assert forall id :: id in b[1..] <==> id in b && id != b[0];
      AscendingIsUnique(a[1..], b[1..]);
      assert a == [a[0]] + a[1..] && b == [b[0]] + b[1..];
    }
  }

  method Smallest(keys: set<Bytes>) returns (least: Bytes)
    requires keys != {}
    ensures least in keys && forall key :: key in keys ==> LexLe(least, key)
  {
    least :| least in keys;
    LexOrder(least, least, least);
    var rest := keys - {least};
    while rest != {}
      invariant least in keys && rest <= keys
      invariant forall key :: key in keys - rest ==> LexLe(least, key)
    {
      var key :| key in rest;
      forall other | other in keys
        ensures LexLe(key, least) && LexLe(least, other) ==> LexLe(key, other)
      {
        LexOrder(key, least, other);
      }
      LexOrder(key, least, key);
      LexOrder(key, key, key);
      if LexLe(key, least) { least := key; }
      rest := rest - {key};
    }
  }

  /** The property space; the functions of the module are its methods. */
  class SuiteStore {
    var data: map<Bytes, Bytes>

    ghost predicate Valid()
      reads this
    {
      forall key :: key in data ==> IsRecordKey(key) || IsAccountKey(key)
    }

    /** The stored record, if there is one. */
    ghost function Live(kind: byte, id: Bytes): Option<Bytes>
      reads this
    {
      if RecordKey(kind, id) in data then Some(data[RecordKey(kind, id)]) else None
    }

    ghost function AccountKeys(): map<Bytes, Bytes>
      reads this
    {
      map key | key in data && IsAccountKey(key) :: data[key]
    }

    constructor ()
      ensures Valid() && data == map[]
    {
      data := map[];
    }

    method Put<T>(kind: byte, id: Bytes, value: T, codec: Codec<T>) returns (result: Result<(), string>)
      requires Valid() && Utf8(id)
      modifies this
      ensures Valid() && AccountKeys() == old(AccountKeys())
      ensures result.Ok? <==> codec.serialize(value).Ok?
      ensures forall k, i :: Live(k, i) == if k == kind && i == id && result.Ok?
                                           then Some(codec.serialize(value).value) else old(Live(k, i))
    {
      match codec.serialize(value)
      case Err(e) => result := Err(e);
      case Ok(bytes) =>
        KeyParts(kind, id);
        OtherKeys(kind, id);
        data := data[RecordKey(kind, id) := bytes];
        result := Ok(());
    }

    method Get<T>(kind: byte, id: Bytes, codec: Codec<T>) returns (result: Result<Option<T>, string>)
      ensures Live(kind, id).None? ==> result == Ok(None)
      ensures Live(kind, id).Some? ==>
                match codec.deserialize(Live(kind, id).value)
                case Ok(value) => result == Ok(Some(value))
                case Err(e) => result == Err(e)
    {
      if RecordKey(kind, id) !in data { return Ok(None); }
      match codec.deserialize(data[RecordKey(kind, id)])
      case Ok(value) => result := Ok(Some(value));
      case Err(e) => result := Err(e);
    }

    method Delete(kind: byte, id: Bytes)
      requires Valid()
      modifies this
      ensures Valid() && AccountKeys() == old(AccountKeys())
      ensures forall k, i :: Live(k, i) == if k == kind && i == id then None else old(Live(k, i))
    {
      KeyParts(kind, id);
      OtherKeys(kind, id);
      data := data - {RecordKey(kind, id)};
    }

    lemma OtherKeys(kind: byte, id: Bytes)
      ensures forall k, i :: RecordKey(k, i) == RecordKey(kind, id) <==> k == kind && i == id
    {
      forall k: byte, i: Bytes
        ensures RecordKey(k, i) == RecordKey(kind, id) <==> k == kind && i == id
      {
        KeyInjective(k, i, kind, id);
      }
    }

    lemma NotAccountKeys(key: Bytes)
      requires IsAccountKey(key)
      ensures forall k, i :: RecordKey(k, i) != key
    {
      forall k: byte, i: Bytes
        ensures RecordKey(k, i) != key
      {
        KeyParts(k, i);
      }
    }

    /** A write of the server to the key of an account. */
    method WriteAccountKey(key: Bytes, bytes: Option<Bytes>)
      requires Valid() && IsAccountKey(key)
      modifies this
      ensures Valid() && forall k, i :: Live(k, i) == old(Live(k, i))
      ensures AccountKeys() == match bytes
                               case Some(b) => old(AccountKeys())[key := b]
                               case None => old(AccountKeys()) - {key}
    {
      NotAccountKeys(key);
      match bytes {
        case Some(b) => data := data[key := b];
        case None => data := data - {key};
      }
    }

    /** Range scan of the ordered store, ascending by key. */
    method Iterate(from: Bytes, to: Bytes) returns (keys: seq<Bytes>)
      ensures Ascending(keys) && forall key :: key in keys <==> key in data && InRange(key, from, to)
    {
      var rest := set key | key in data && InRange(key, from, to);
      keys := [];
      while rest != {}
        invariant Ascending(keys)
        invariant forall key :: key in keys || key in rest <==> key in data && InRange(key, from, to)
        invariant forall key, other :: key in keys && other in rest ==> LexLe(key, other) && key != other
        decreases |rest|
      {
        var key := Smallest(rest);
        keys := keys + [key];
        rest := rest - {key};
      }
    }

    /** `ids` are the ids of the live records, ascending, and `result` their values, or the first failure. */
    ghost predicate IsListing<T>(kind: byte, codec: Codec<T>, ids: seq<Bytes>, result: Result<seq<T>, string>)
      reads this
    {
      && Ascending(ids) && (forall id :: id in ids <==> Live(kind, id).Some?)
      && match result
         case Ok(values) =>
           |values| == |ids|
           && forall i :: 0 <= i < |ids| ==> codec.deserialize(Live(kind, ids[i]).value) == Ok(values[i])
         case Err(e) =>
           exists n :: 0 <= n < |ids| && codec.deserialize(Live(kind, ids[n]).value) == Err(e)
                       && forall i :: 0 <= i < n ==> codec.deserialize(Live(kind, ids[i]).value).Ok?
    }

    /** Lists exactly the live records of a kind, ascending by id; the first undecodable record is an error. */
    method List<T>(kind: byte, codec: Codec<T>) returns (result: Result<seq<T>, string>)
      requires Valid()
      ensures exists ids :: IsListing(kind, codec, ids, result)
    {
      hide RecordKey, RangeStart, RangeEnd, LexLe;
      var keys := Iterate(RangeStart(kind), RangeEnd(kind));
      ghost var ids: seq<Bytes> := seq(|keys|, i requires 0 <= i < |keys| => if |keys[i]| >= 5 then keys[i][5..] else []);
      KeysOfKind(kind, keys, ids);
      var values: seq<T> := [];
      for i := 0 to |keys|
        invariant |values| == i
        invariant forall j :: 0 <= j < i ==> codec.deserialize(Live(kind, ids[j]).value) == Ok(values[j])
      {
        assert keys[i] == RecordKey(kind, ids[i]) && keys[i] in data;
        match codec.deserialize(data[keys[i]])
        case Ok(value) => values := values + [value];
        case Err(e) =>
          assert IsListing(kind, codec, ids, Err(e));
          return Err(e);
      }
      result := Ok(values);
      assert IsListing(kind, codec, ids, result);
    }

    lemma KeysOfKind(kind: byte, keys: seq<Bytes>, ids: seq<Bytes>)
      requires Valid() && Ascending(keys) && |ids| == |keys|
      requires forall key :: key in keys <==> key in data && InRange(key, RangeStart(kind), RangeEnd(kind))
      requires forall i :: 0 <= i < |keys| ==> ids[i] == if |keys[i]| >= 5 then keys[i][5..] else []
      ensures Ascending(ids) && forall id :: id in ids <==> Live(kind, id).Some?
      ensures forall i :: 0 <= i < |keys| ==> keys[i] == RecordKey(kind, ids[i])
    {
      forall i | 0 <= i < |keys|
        ensures keys[i] == RecordKey(kind, ids[i])
      {
        assert keys[i] in keys;
        InRangeExactly(keys[i], kind);
        assert keys[i] == keys[i][..4] + [keys[i][4]] + keys[i][5..];
      }
      forall id: Bytes
        ensures id in ids <==> Live(kind, id).Some?
      {
        KeyParts(kind, id);
        if id in ids {
          var i :| 0 <= i < |ids| && ids[i] == id;
          assert keys[i] in keys;
        }
        if RecordKey(kind, id) in data {
          InRangeExactly(RecordKey(kind, id), kind);
          var i :| 0 <= i < |keys| && keys[i] == RecordKey(kind, id);
          assert ids[i] == id;
        }
      }
      forall i, j | 0 <= i < j < |ids|
        ensures LexLe(ids[i], ids[j]) && ids[i] != ids[j]
      {
        assert RecordKey(kind, ids[i]) == RangeStart(kind) + ids[i];
        LexPrefix(RangeStart(kind), ids[i], ids[j]);
      }
    }

    /** After any history every record holds what its own last write left, whatever else was written. */
    method Replay<T>(ops: seq<Op<T>>, codec: Codec<T>)
      requires Valid() && forall i :: 0 <= i < |ops| ==> LegalOp(ops[i])
      modifies this
      ensures Valid()
      ensures forall k, i :: Live(k, i) == LastWrite(ops, codec, k, i, old(Live(k, i)))
    {
      for n := 0 to |ops|
        invariant Valid()
        invariant forall k, i :: Live(k, i) == LastWrite(ops[..n], codec, k, i, old(Live(k, i)))
      {
        assert ops[..n + 1][..n] == ops[..n];
        match ops[n] {
          case Put(kind, id, value) => var _ := Put(kind, id, value, codec);
          case Delete(kind, id) => Delete(kind, id);
          case SetAccountKey(key, bytes) => WriteAccountKey(key, Some(bytes));
          case ClearAccountKey(key) => WriteAccountKey(key, None);
        }
      }
      assert ops[..|ops|] == ops;
    }
  }
}
