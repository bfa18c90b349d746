/** The bytes a cache key is the digest of: records of length-prefixed fields. */
module CacheManifest {

  type Byte = n: int | 0 <= n < 256

  type Bytes = seq<Byte>

  type Record = seq<Bytes>

  const COLON: Byte := 58

  // ----- Encoding -----

  /** The decimal digits of `n`. */
  function Digits(n: nat): (digits: Bytes)
    ensures digits != [] && COLON !in digits
  {
    var last: Bytes := [48 + n % 10];
    if n < 10 then last else Digits(n / 10) + last
  }

  /** `format!("{n}:")`. */
  function Prefixed(n: nat): Bytes {
    Digits(n) + [COLON]
  }

  function EncodeFields(fields: Record): Bytes {
    if fields == [] then [] else Prefixed(|fields[0]|) + fields[0] + EncodeFields(fields[1..])
  }

  function EncodeRecord(fields: Record): Bytes {
    Prefixed(|fields|) + EncodeFields(fields)
  }

  function Encode(records: seq<Record>): Bytes {
    if records == [] then [] else EncodeRecord(records[0]) + Encode(records[1..])
  }

  /** Appending a record's bytes appends the record. */
  lemma {:induction false} EncodeNext(records: seq<Record>, fields: Record)
    ensures Encode(records + [fields]) == Encode(records) + EncodeRecord(fields)
    decreases |records|
  {
    if records == [] {
      assert (records + [fields])[1..] == [];
    } else {
      assert (records + [fields])[1..] == records[1..] + [fields];
      EncodeNext(records[1..], fields);
    }
  }

  /** The bytes written so far; each call appends one record. */
  class Manifest {
    var bytes: Bytes

    constructor ()
      ensures bytes == []
    {
      bytes := [];
    }

    method Append(fields: Record)
      modifies this
      ensures bytes == old(bytes) + EncodeRecord(fields)
    {
      bytes := bytes + Prefixed(|fields|);
      for i := 0 to |fields|
        invariant bytes + EncodeFields(fields[i..]) == old(bytes) + EncodeRecord(fields)
      {
        assert fields[i..][0] == fields[i] && fields[i..][1..] == fields[i + 1..];
        bytes := bytes + Prefixed(|fields[i]|);
        bytes := bytes + fields[i];
      }
      assert fields[|fields|..] == [];
    }
  }

  // ----- Unique decoding -----

  function Value(digits: Bytes): int {
    if digits == [] then 0 else 10 * Value(digits[..|digits| - 1]) + (digits[|digits| - 1] as int) - 48
  }

  lemma {:induction false} ValueOfDigits(n: nat)
    ensures Value(Digits(n)) == n
  {
    if n >= 10 {
      ValueOfDigits(n / 10);
      assert Digits(n)[..|Digits(n)| - 1] == Digits(n / 10);
    }
  }

  /** Equal bytes end their first colon-free part at the same place. */
  lemma SplitAtColon(a: Bytes, x: Bytes, b: Bytes, y: Bytes)
    requires COLON !in a && COLON !in b
    requires a + [COLON] + x == b + [COLON] + y
    ensures a == b && x == y
  {
    var s := a + [COLON] + x;
    assert s[|a|] == COLON && s[|b|] == COLON;
    assert a == s[..|a|] && b == s[..|b|];
    assert x == s[|a| + 1..] && y == s[|b| + 1..];
  }

  lemma NumberDecodes(m: nat, x: Bytes, n: nat, y: Bytes)
    requires Prefixed(m) + x == Prefixed(n) + y
    ensures m == n && x == y
  {
    SplitAtColon(Digits(m), x, Digits(n), y);
    ValueOfDigits(m);
    ValueOfDigits(n);
  }

  lemma {:induction false} FieldsDecode(f: Record, x: Bytes, g: Record, y: Bytes)
    requires |f| == |g| && EncodeFields(f) + x == EncodeFields(g) + y
    ensures f == g && x == y
    decreases |f|
  {
    if f == [] {
      assert EncodeFields(f) + x == x && EncodeFields(g) + y == y;
    } else {
      var fx, gy := f[0] + (EncodeFields(f[1..]) + x), g[0] + (EncodeFields(g[1..]) + y);
      assert EncodeFields(f) + x == Prefixed(|f[0]|) + fx;
      assert EncodeFields(g) + y == Prefixed(|g[0]|) + gy;
      NumberDecodes(|f[0]|, fx, |g[0]|, gy);
      assert f[0] == fx[..|f[0]|] && g[0] == gy[..|f[0]|];
      assert EncodeFields(f[1..]) + x == fx[|f[0]|..] && EncodeFields(g[1..]) + y == gy[|f[0]|..];
      FieldsDecode(f[1..], x, g[1..], y);
      assert f == [f[0]] + f[1..] && g == [g[0]] + g[1..];
    }
  }

  lemma RecordDecodes(f: Record, x: Bytes, g: Record, y: Bytes)
    requires EncodeRecord(f) + x == EncodeRecord(g) + y
    ensures f == g && x == y
  {
    assert EncodeRecord(f) + x == Prefixed(|f|) + (EncodeFields(f) + x);
    assert EncodeRecord(g) + y == Prefixed(|g|) + (EncodeFields(g) + y);
    NumberDecodes(|f|, EncodeFields(f) + x, |g|, EncodeFields(g) + y);
    FieldsDecode(f, x, g, y);
  }

  /** No two different lists of records write the same bytes, whatever their fields hold. */
  lemma {:induction false} UniquelyDecodable(r: seq<Record>, s: seq<Record>)
    requires Encode(r) == Encode(s)
    ensures r == s
    decreases |r|
  {
    if r != [] && s != [] {
      RecordDecodes(r[0], Encode(r[1..]), s[0], Encode(s[1..]));
      UniquelyDecodable(r[1..], s[1..]);
      assert r == [r[0]] + r[1..] && s == [s[0]] + s[1..];
    }
  }
}
