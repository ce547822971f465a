/**
 * The serialiser. The store encodes record values with marshal and its index
 * with cPickle; neither byte format is reproduced here. In their place this
 * module defines one self-delimiting encoding of a subset of the values they
 * handle (None, booleans, integers, byte strings and lists of these) and
 * proves that decoding inverts encoding, which is all the store relies on.
 * Floats, unicode strings, tuples and dicts are not among the modelled
 * values; the index's (position, size) pairs are encoded as two-element
 * lists.
 */
module Codec {
  import opened Wrappers

  type byte = x: int | 0 <= x < 256
  type Bytes = seq<byte>

  /**
   * The modelled record values: None, booleans, integers, byte strings (a
   * Python 2 str) and lists of these. marshal also stores floats, unicode,
   * tuples and dicts, which are not modelled.
   */
  datatype Value =
    | Nil
    | Bool(b: bool)
    | Int(i: int)
    | Text(s: Bytes)
    | List(items: seq<Value>)

  // One-byte type tags, borrowed from marshal's letters.
  const TagNil: byte := 78     // 'N'
  const TagTrue: byte := 84    // 'T'
  const TagFalse: byte := 70   // 'F'
  const TagInt: byte := 105    // 'i': a non-negative integer
  const TagNeg: byte := 109    // 'm': a negative integer
  const TagText: byte := 115   // 's'
  const TagList: byte := 91    // '['

  /** Little-endian base-128 encoding of a natural number; the high bit marks "more bytes follow". */
  function Varint(n: nat): (r: Bytes)
    ensures |r| >= 1
  {
    if n < 128 then [n] else [128 + n % 128] + Varint(n / 128)
  }

  /** Reads one varint from the front of b and returns it with the bytes after it. */
  function ParseVarint(b: Bytes): (r: Option<(nat, Bytes)>)
    ensures r.Some? ==> |r.value.1| < |b|
  {
    if b == [] then None
    else if b[0] < 128 then Some((b[0], b[1..]))
    else match ParseVarint(b[1..])
      case None => None
      case Some((m, rest)) => Some((b[0] - 128 + 128 * m, rest))
  }

  lemma {:induction false} ParseVarintRoundTrip(n: nat, rest: Bytes)
    ensures ParseVarint(Varint(n) + rest) == Some((n, rest))
  {
    if n >= 128 {
      var b := Varint(n) + rest;
      assert b[1..] == Varint(n / 128) + rest;
      ParseVarintRoundTrip(n / 128, rest);
    }
  }

  function Encode(v: Value): (r: Bytes)
    ensures |r| >= 1
    decreases v
  {
    match v
    case Nil => [TagNil]
    case Bool(b) => if b then [TagTrue] else [TagFalse]
    case Int(i) => if i >= 0 then [TagInt] + Varint(i) else [TagNeg] + Varint(-i - 1)
    case Text(s) => [TagText] + Varint(|s|) + s
    case List(items) => [TagList] + Varint(|items|) + EncodeAll(items)
  }

  /** The concatenated encodings of a sequence of values. */
  function EncodeAll(vs: seq<Value>): Bytes
    decreases vs
  {
    if vs == [] then [] else Encode(vs[0]) + EncodeAll(vs[1..])
  }

  /** Reads one value from the front of b and returns it with the bytes after it. */
  function Parse(b: Bytes): (r: Option<(Value, Bytes)>)
    ensures r.Some? ==> |r.value.1| < |b|
    decreases |b|, 0
  {
    if b == [] then None
    else if b[0] == TagNil then Some((Nil, b[1..]))
    else if b[0] == TagTrue then Some((Bool(true), b[1..]))
    else if b[0] == TagFalse then Some((Bool(false), b[1..]))
    else if b[0] == TagInt || b[0] == TagNeg then
      match ParseVarint(b[1..])
      case None => None
      case Some((m, rest)) =>
        var i: int := if b[0] == TagInt then m else -(m as int) - 1;
        Some((Int(i), rest))
    else if b[0] == TagText then
      match ParseVarint(b[1..])
      case None => None
      case Some((len, rest)) =>
        if len <= |rest| then Some((Text(rest[..len]), rest[len..])) else None
    else if b[0] == TagList then
      match ParseVarint(b[1..])
      case None => None
      case Some((count, rest)) =>
        match ParseMany(count, rest)
        case None => None
        case Some((items, rest')) => Some((List(items), rest'))
    else None
  }

  /** Reads count values one after the other from the front of b. */
  function ParseMany(count: nat, b: Bytes): (r: Option<(seq<Value>, Bytes)>)
    ensures r.Some? ==> |r.value.0| == count && |r.value.1| <= |b|
    decreases |b|, 1, count
  {
    if count == 0 then Some(([], b))
    else match Parse(b)
      case None => None
      case Some((v, rest)) =>
        match ParseMany(count - 1, rest)
        case None => None
        case Some((vs, rest')) => Some(([v] + vs, rest'))
  }

  /** Decodes a whole byte string: exactly one value and nothing after it. */
  function Decode(b: Bytes): Option<Value>
  {
    match Parse(b)
    case Some((v, rest)) => if rest == [] then Some(v) else None
    case None => None
  }

  lemma {:induction false} ParseEncode(v: Value, rest: Bytes)
    ensures Parse(Encode(v) + rest) == Some((v, rest))
    decreases v
  {
    match v
    case Nil =>
    case Bool(x) =>
    case Int(i) => ParseEncodeInt(i, rest);
    case Text(s) => ParseEncodeText(s, rest);
    case List(items) =>
      var b := Encode(v) + rest;
      assert b[0] == TagList;
      assert b[1..] == Varint(|items|) + (EncodeAll(items) + rest);
      ParseVarintRoundTrip(|items|, EncodeAll(items) + rest);
      ParseManyEncodeAll(items, rest);
  }

  lemma ParseEncodeInt(i: int, rest: Bytes)
    ensures Parse(Encode(Int(i)) + rest) == Some((Int(i), rest))
  {
    var b := Encode(Int(i)) + rest;
    var m: nat := if i >= 0 then i else -i - 1;
    assert b[0] == (if i >= 0 then TagInt else TagNeg);
    assert b[1..] == Varint(m) + rest;
    ParseVarintRoundTrip(m, rest);
  }

  lemma ParseEncodeText(s: Bytes, rest: Bytes)
    ensures Parse(Encode(Text(s)) + rest) == Some((Text(s), rest))
  {
    var b := Encode(Text(s)) + rest;
    assert b[0] == TagText;
    assert b[1..] == Varint(|s|) + (s + rest);
    ParseVarintRoundTrip(|s|, s + rest);
    assert (s + rest)[..|s|] == s && (s + rest)[|s|..] == rest;
  }

  lemma {:induction false} ParseManyEncodeAll(vs: seq<Value>, rest: Bytes)
    ensures ParseMany(|vs|, EncodeAll(vs) + rest) == Some((vs, rest))
    decreases vs
  {
    if vs != [] {
      var tail := EncodeAll(vs[1..]) + rest;
      assert EncodeAll(vs) + rest == Encode(vs[0]) + tail;
      ParseEncode(vs[0], tail);
      ParseManyEncodeAll(vs[1..], rest);
      assert |vs[1..]| == |vs| - 1;
      assert [vs[0]] + vs[1..] == vs;
    } else {
      assert EncodeAll(vs) + rest == rest;
    }
  }

  /** marshal.loads(marshal.dumps(v)) == v. */
  lemma DecodeEncode(v: Value)
    ensures Decode(Encode(v)) == Some(v)
  {
    ParseEncode(v, []);
    assert Encode(v) + [] == Encode(v);
  }
}
