/**
 * The on-disk layout of an MmapDict file (odin/fuel/utils.py):
 *
 *   "mmapdict" | '%48d' high-water mark | '%48d' index length | data ... | index blob
 *
 * The high-water mark is the offset where the data region ends and the index
 * blob begins. The file is a byte sequence; writes and reads are the
 * seek-then-write and seek-then-read of a Python file object.
 */
module Layout {
  import opened Wrappers
  import opened Codec
  import Decimal

  type Key = Bytes

  const Magic: Bytes := [109, 109, 97, 112, 100, 105, 99, 116]  // "mmapdict"
  const FieldWidth: nat := 48
  /** The magic marker plus both header fields: where the data region starts. */
  const HeaderSize: nat := 104
  /** 10^48: the first number '%48d' no longer fits into 48 columns. */
  const FieldLimit: nat := 1_000_000_000_000_000_000_000_000_000_000_000_000_000_000_000_000

  const Space: byte := 32
  const Zero: byte := 48

  datatype StoreError =
    | NotFound       // read-only open of a missing or empty file
    | BadMagic       // the file does not start with "mmapdict"
    | BadHeader      // a header field is not a decimal number
    | BadIndex       // the index blob does not decode
    | ReadOnly       // flush in read-only mode
    | DuplicateKey   // insertion of a key already in the index
    | KeyNotFound    // lookup or delete of an absent key
    | BadValue       // stored bytes that do not decode
    | Closed         // mapped-file access after close

  // ---------------------------------------------------------------- fields

  predicate IsDigit(c: byte) { Zero <= c <= Zero + 9 }

  function DigitBytes(n: nat): (r: Bytes)
    ensures |r| == |Decimal.Digits(n)|
    ensures forall i :: 0 <= i < |r| ==> IsDigit(r[i]) && r[i] - Zero == Decimal.Digits(n)[i]
  {
    var ds := Decimal.Digits(n);
    seq(|ds|, i requires 0 <= i < |ds| => Zero + ds[i])
  }

  function Spaces(k: nat): (r: Bytes)
    ensures |r| == k && forall i :: 0 <= i < k ==> r[i] == Space
  {
    seq(k, _ => Space)
  }

  /** '%48d' % n: the decimal digits right-aligned in 48 columns (a longer number is written in full). */
  function FormatField(n: nat): (r: Bytes)
  {
    var d := DigitBytes(n);
    if |d| < FieldWidth then Spaces(FieldWidth - |d|) + d else d
  }

  /** s.lstrip(' '): drops the leading spaces. */
  function TrimLeft(s: Bytes): (r: Bytes)
    ensures |r| <= |s|
    ensures r != [] ==> r[0] != Space
  {
    if s != [] && s[0] == Space then TrimLeft(s[1..]) else s
  }

  /** s.rstrip(' '): drops the trailing spaces. */
  function TrimRight(s: Bytes): (r: Bytes)
    ensures |r| <= |s|
    ensures r != [] ==> r[|r| - 1] != Space
  {
    if s != [] && s[|s| - 1] == Space then TrimRight(s[..|s| - 1]) else s
  }

  /** What TrimLeft removes is a run of spaces at the front; the rest is kept as it was. */
  lemma {:induction false} TrimLeftSuffix(s: Bytes)
    ensures var r := TrimLeft(s);
      && r == s[|s| - |r|..]
      && forall i :: 0 <= i < |s| - |r| ==> s[i] == Space
  {
    if s != [] && s[0] == Space {
      TrimLeftSuffix(s[1..]);
    }
  }

  /** What TrimRight removes is a run of spaces at the back; the rest is kept as it was. */
  lemma {:induction false} TrimRightPrefix(s: Bytes)
    ensures var r := TrimRight(s);
      && r == s[..|r|]
      && forall i :: |r| <= i < |s| ==> s[i] == Space
  {
    if s != [] && s[|s| - 1] == Space {
      TrimRightPrefix(s[..|s| - 1]);
    }
  }

  function DigitValues(t: Bytes): seq<nat>
  {
    seq(|t|, i requires 0 <= i < |t| => if IsDigit(t[i]) then t[i] - Zero else 0)
  }

  /** int() of a header field: one or more decimal digits, optionally surrounded by spaces. */
  function ParseField(s: Bytes): Option<nat>
  {
    var t := TrimRight(TrimLeft(s));
    if t != [] && forall i :: 0 <= i < |t| ==> IsDigit(t[i])
    then Some(Decimal.FromDigits(DigitValues(t)))
    else None
  }

  lemma {:induction false} TrimLeftSpaces(k: nat, d: Bytes)
    requires d != [] && d[0] != Space
    ensures TrimLeft(Spaces(k) + d) == d
  {
    if k > 0 {
      assert (Spaces(k) + d)[1..] == Spaces(k - 1) + d;
      TrimLeftSpaces(k - 1, d);
    } else {
      assert Spaces(k) + d == d;
    }
  }

  lemma Pow10Monotone(i: nat, j: nat)
    requires i <= j
    ensures Decimal.Pow10(i) <= Decimal.Pow10(j)
    decreases j
  {
    if i < j { Pow10Monotone(i, j - 1); }
  }

  lemma FieldLimitPow10()
    ensures FieldLimit == Decimal.Pow10(FieldWidth)
  {
    assert Decimal.Pow10(3) == 1_000;
    Decimal.Pow10Add(3, 3);
    var p6 := Decimal.Pow10(6);
    assert p6 == 1_000_000;
    Decimal.Pow10Add(6, 6);
    var p12 := Decimal.Pow10(12);
    assert p12 == p6 * p6;
    Decimal.Pow10Add(12, 12);
    var p24 := Decimal.Pow10(24);
    assert p24 == p12 * p12;
    Decimal.Pow10Add(24, 24);
  }

  /** Every number below 10^48 is written in exactly 48 columns. */
  lemma FormatFieldWidth(n: nat)
    requires n < FieldLimit
    ensures |FormatField(n)| == FieldWidth
  {
    FieldLimitPow10();
    Decimal.DigitsLength(n, 48);
  }

  /** int() of the digits of n behind k spaces is n. */
  lemma ParsePadded(k: nat, n: nat)
    ensures ParseField(Spaces(k) + DigitBytes(n)) == Some(n)
  {
    var d := DigitBytes(n);
    TrimLeftSpaces(k, d);
    DigitsUntrimmed(n);
    DigitValuesOf(n);
    Decimal.FromDigitsDigits(n);
  }

  lemma DigitsUntrimmed(n: nat)
    ensures TrimRight(DigitBytes(n)) == DigitBytes(n)
  {
    var d := DigitBytes(n);
    assert IsDigit(d[|d| - 1]);
  }

  lemma DigitValuesOf(n: nat)
    ensures DigitValues(DigitBytes(n)) == Decimal.Digits(n)
  {
  }

  /** int('%48d' % n) == n for every number that fits the field. */
  lemma ParseFormatField(n: nat)
    requires n < FieldLimit
    ensures ParseField(FormatField(n)) == Some(n)
  {
    var d := DigitBytes(n);
    FormatFieldWidth(n);
    if |d| < FieldWidth {
      ParsePadded(FieldWidth - |d|, n);
    } else {
      assert Spaces(0) + d == d;
      ParsePadded(0, n);
    }
  }

  // ---------------------------------------------------------------- file I/O

  function Min(a: int, b: int): int { if a <= b then a else b }
  function Max(a: int, b: int): int { if a >= b then a else b }

  /** file.seek(pos); file.read(n): at most n bytes, fewer at the end of the file. */
  function ReadAt(f: Bytes, pos: nat, n: nat): (r: Bytes)
    ensures pos + n <= |f| ==> r == f[pos..pos + n]
  {
    f[Min(pos, |f|)..Min(pos + n, |f|)]
  }

  /** file.seek(pos); file.write(data): overwrites in place, extends the file, zero-fills a gap. */
  function WriteAt(f: Bytes, pos: nat, data: Bytes): (r: Bytes)
    ensures |r| == Max(|f|, pos + |data|)
  {
    seq(Max(|f|, pos + |data|), i requires 0 <= i < Max(|f|, pos + |data|) =>
      if pos <= i < pos + |data| then data[i - pos] else if i < |f| then f[i] else 0)
  }

  /** After the write, the written range holds the data; every other byte is the old one, or 0 in a gap past the old end. */
  lemma WriteAtContents(f: Bytes, pos: nat, data: Bytes)
    ensures var r := WriteAt(f, pos, data);
      && (forall i :: pos <= i < pos + |data| ==> r[i] == data[i - pos])
      && (forall i :: 0 <= i < |r| && !(pos <= i < pos + |data|) ==> r[i] == (if i < |f| then f[i] else 0))
  {
  }

  // ---------------------------------------------------------------- index

  /** Where a record's encoded value lies: file[offset .. offset + size]. */
  datatype Entry = Entry(offset: nat, size: nat)

  /** The ordered key -> entry index (an OrderedDict): keys in insertion order and their entries. */
  datatype Index = Index(order: seq<Key>, entries: map<Key, Entry>) {

    ghost predicate Valid() {
      && Distinct(order)
      && (forall k :: k in entries <==> k in order)
    }

    /** index[k] = e for a new key: appended at the end of the order. */
    function Insert(k: Key, e: Entry): (r: Index)
      requires Valid() && k !in entries
      ensures r.Valid() && r.order == order + [k] && r.entries == entries[k := e]
    {
      Index(order + [k], entries[k := e])
    }

    /** del index[k]: the key leaves the order; the others keep their relative order. */
    function Remove(k: Key): (r: Index)
      requires Valid() && k in entries
      ensures r.Valid() && r.entries == entries - {k}
      ensures forall x :: x in r.order <==> x in order && x != k
      ensures |r.order| == |order| - 1
      ensures exists i :: 0 <= i < |order| && order[i] == k && r.order == order[..i] + order[i + 1..]
    {
      var i := IndexOf(order, k);
      RemoveAt(order, i);
      var r := Index(order[..i] + order[i + 1..], entries - {k});
      assert order[i] == k && r.order == order[..i] + order[i + 1..];
      r
    }
  }

  const EmptyIndex: Index := Index([], map[])

  ghost predicate Distinct<T>(s: seq<T>)
  {
    forall i, j :: 0 <= i < j < |s| ==> s[i] != s[j]
  }

  lemma RemoveAt<T>(s: seq<T>, i: nat)
    requires i < |s| && Distinct(s)
    ensures var r := s[..i] + s[i + 1..];
      && Distinct(r) && |r| == |s| - 1
      && forall x :: x in r <==> x in s && x != s[i]
  {
    var r := s[..i] + s[i + 1..];
    assert forall j :: 0 <= j < |r| ==> r[j] == if j < i then s[j] else s[j + 1];
    forall x | x in s && x != s[i] ensures x in r {
      var j :| 0 <= j < |s| && s[j] == x;
      assert r[if j < i then j else j - 1] == x;
    }
  }

  function IndexOf(s: seq<Key>, k: Key): (i: nat)
    requires k in s
    ensures i < |s| && s[i] == k
  {
    if s[0] == k then 0 else 1 + IndexOf(s[1..], k)
  }

  /** One index entry as a value: [key, offset, size]. */
  function EntryValue(k: Key, e: Entry): Value
  {
    List([Text(k), Int(e.offset), Int(e.size)])
  }

  function EntryValues(order: seq<Key>, entries: map<Key, Entry>): (r: seq<Value>)
    requires forall k :: k in order ==> k in entries
    ensures |r| == |order|
  {
    if order == [] then []
    else
      var n := |order| - 1;
      EntryValues(order[..n], entries) + [EntryValue(order[n], entries[order[n]])]
  }

  /** cPickle.dumps of the index. */
  function EncodeIndex(idx: Index): Bytes
    requires idx.Valid()
  {
    Encode(List(EntryValues(idx.order, idx.entries)))
  }

  /** Rebuilds an index from its entry values, rejecting anything else. */
  function IndexFromValues(vs: seq<Value>): (r: Option<Index>)
    ensures r.Some? ==> r.value.Valid()
  {
    if vs == [] then Some(EmptyIndex)
    else
      match IndexFromValues(vs[..|vs| - 1])
      case None => None
      case Some(idx) =>
        var v := vs[|vs| - 1];
        if v.List? && |v.items| == 3 && v.items[0].Text? && v.items[1].Int? && v.items[2].Int?
           && v.items[1].i >= 0 && v.items[2].i >= 0 && v.items[0].s !in idx.entries
        then Some(idx.Insert(v.items[0].s, Entry(v.items[1].i, v.items[2].i)))
        else None
  }

  /** cPickle.loads of an index blob. */
  function DecodeIndex(b: Bytes): (r: Option<Index>)
    ensures r.Some? ==> r.value.Valid()
  {
    match Decode(b)
    case Some(List(vs)) => IndexFromValues(vs)
    case _ => None
  }

  function Restrict(order: seq<Key>, entries: map<Key, Entry>): map<Key, Entry>
    requires forall k :: k in order ==> k in entries
  {
    map k | k in order :: entries[k]
  }

  lemma {:induction false} IndexFromEntryValues(order: seq<Key>, entries: map<Key, Entry>)
    requires Distinct(order)
    requires forall k :: k in order ==> k in entries
    ensures IndexFromValues(EntryValues(order, entries)) == Some(Index(order, Restrict(order, entries)))
  {
    if order != [] {
      var n := |order| - 1;
      var init, last := order[..n], order[n];
      DistinctInit(order);
      IndexFromEntryValues(init, entries);
      var prev := Index(init, Restrict(init, entries));
      var vs := EntryValues(order, entries);
      assert vs[..n] == EntryValues(init, entries);
      IndexFromValuesStep(vs, prev, last, entries[last]);
      assert init + [last] == order;
      RestrictStep(order, entries);
    }
  }

  lemma DistinctInit<T>(s: seq<T>)
    requires s != [] && Distinct(s)
    ensures Distinct(s[..|s| - 1]) && s[|s| - 1] !in s[..|s| - 1]
  {
  }

  lemma IndexFromValuesStep(vs: seq<Value>, prev: Index, k: Key, e: Entry)
    requires vs != [] && IndexFromValues(vs[..|vs| - 1]) == Some(prev)
    requires vs[|vs| - 1] == EntryValue(k, e) && k !in prev.entries
    ensures IndexFromValues(vs) == Some(prev.Insert(k, e))
  {
  }

  lemma RestrictStep(order: seq<Key>, entries: map<Key, Entry>)
    requires order != [] && forall k :: k in order ==> k in entries
    ensures var n := |order| - 1;
      Restrict(order, entries) == Restrict(order[..n], entries)[order[n] := entries[order[n]]]
  {
    var n := |order| - 1;
    assert forall k :: k in order <==> k in order[..n] || k == order[n];
  }

  /** Unpickling the pickled index gives the index back. */
  lemma DecodeEncodeIndex(idx: Index)
    requires idx.Valid()
    ensures DecodeIndex(EncodeIndex(idx)) == Some(idx)
  {
    DecodeEncode(List(EntryValues(idx.order, idx.entries)));
    IndexFromEntryValues(idx.order, idx.entries);
    assert Restrict(idx.order, idx.entries) == idx.entries;
  }

  // ---------------------------------------------------------------- whole file

  /** What opening a file reads: the high-water mark, the index blob length and the index. */
  datatype Persisted = Persisted(mark: nat, blobSize: nat, index: Index)

  function Header(mark: nat, blobSize: nat): Bytes
  {
    Magic + FormatField(mark) + FormatField(blobSize)
  }

  /** Reading an existing, non-empty file (MmapDict.__init, first branch). */
  function ParseFile(f: Bytes): (r: Result<Persisted, StoreError>)
    ensures r.Ok? ==> |f| >= |Magic| && f[..|Magic|] == Magic
    ensures r.Ok? ==> r.value.index.Valid()
    ensures r.Err? ==> r.error in {BadMagic, BadHeader, BadIndex}
  {
    if ReadAt(f, 0, |Magic|) != Magic then Err(BadMagic)
    else
      var mark := ParseField(ReadAt(f, |Magic|, FieldWidth));
      var size := ParseField(ReadAt(f, |Magic| + FieldWidth, FieldWidth));
      if mark.None? || size.None? then Err(BadHeader)
      else match DecodeIndex(ReadAt(f, mark.value, size.value))
        case None => Err(BadIndex)
        case Some(idx) => Ok(Persisted(mark.value, size.value, idx))
  }

  /** The file a new store writes: header (mark 104), then the pickled empty index. */
  function NewFile(): Bytes
  {
    var blob := EncodeIndex(EmptyIndex);
    Header(HeaderSize, |blob|) + blob
  }

  lemma FieldLimitLarge()
    ensures FieldLimit > 1000
  {
  }

  /** The three header fields of a file that starts with Header(mark, blobSize) read back as written. */
  lemma HeaderReads(mark: nat, blobSize: nat, f: Bytes)
    requires mark < FieldLimit && blobSize < FieldLimit
    requires |f| >= HeaderSize && f[..HeaderSize] == Header(mark, blobSize)
    ensures ReadAt(f, 0, |Magic|) == Magic
    ensures ParseField(ReadAt(f, |Magic|, FieldWidth)) == Some(mark)
    ensures ParseField(ReadAt(f, |Magic| + FieldWidth, FieldWidth)) == Some(blobSize)
  {
    FormatFieldWidth(mark);
    FormatFieldWidth(blobSize);
    HeaderFields(mark, blobSize, f);
    ParseFormatField(mark);
    ParseFormatField(blobSize);
  }

  lemma HeaderFields(mark: nat, blobSize: nat, f: Bytes)
    requires |FormatField(mark)| == FieldWidth && |FormatField(blobSize)| == FieldWidth
    requires |f| >= HeaderSize && f[..HeaderSize] == Header(mark, blobSize)
    ensures ReadAt(f, 0, |Magic|) == Magic
    ensures ReadAt(f, |Magic|, FieldWidth) == FormatField(mark)
    ensures ReadAt(f, |Magic| + FieldWidth, FieldWidth) == FormatField(blobSize)
  {
    var h := Header(mark, blobSize);
    assert f[0..8] == h[0..8] && f[8..56] == h[8..56] && f[56..104] == h[56..104];
  }

  /** A new file has the header "mmapdict", '%48d' % 104, '%48d' % len(blob), and reads back as the empty index. */
  lemma NewFileParses()
    ensures var blob := EncodeIndex(EmptyIndex);
      && NewFile() == Magic + FormatField(HeaderSize) + FormatField(|blob|) + blob
      && |NewFile()| == HeaderSize + |blob|
      && ParseFile(NewFile()) == Ok(Persisted(HeaderSize, |blob|, EmptyIndex))
  {
    var blob := EncodeIndex(EmptyIndex);
    var f := NewFile();
    FieldLimitLarge();
    assert |blob| == 2;
    FormatFieldWidth(HeaderSize);
    FormatFieldWidth(|blob|);
    assert f[..HeaderSize] == Header(HeaderSize, |blob|);
    assert f[HeaderSize..HeaderSize + |blob|] == blob;
    ParseWrittenFile(f, HeaderSize, EmptyIndex);
  }

  /**
   * The writes of MmapDict.flush, in the source's order: the new high-water
   * mark into the first header field, the index blob length into the second,
   * the buffered values at the old high-water mark and the index blob right
   * after them.
   */
  function FlushWrites(f: Bytes, oldMark: nat, newMark: nat, data: Bytes, blob: Bytes): Bytes
  {
    var f1 := WriteAt(f, |Magic|, FormatField(newMark));
    var f2 := WriteAt(f1, |Magic| + FieldWidth, FormatField(|blob|));
    var f3 := WriteAt(f2, oldMark, data);
    WriteAt(f3, oldMark + |data|, blob)
  }

  /**
   * After a flush the file starts with the new header, keeps every data byte
   * below the old high-water mark, holds the buffered values from the old mark
   * on, and reopening it yields the index that was written.
   */
  lemma FlushedFile(f: Bytes, oldMark: nat, data: Bytes, idx: Index, newMark: nat)
    requires idx.Valid()
    requires |f| >= HeaderSize && f[..|Magic|] == Magic
    requires HeaderSize <= oldMark <= |f| && newMark == oldMark + |data|
    requires newMark < FieldLimit && |EncodeIndex(idx)| < FieldLimit
    ensures var blob := EncodeIndex(idx);
      var g := FlushWrites(f, oldMark, newMark, data, blob);
      && |g| >= newMark + |blob|
      && g[..HeaderSize] == Header(newMark, |blob|)
      && g[HeaderSize..oldMark] == f[HeaderSize..oldMark]
      && g[oldMark..newMark] == data
      && g[newMark..newMark + |blob|] == blob
      && ParseFile(g) == Ok(Persisted(newMark, |blob|, idx))
  {
    var blob := EncodeIndex(idx);
    FormatFieldWidth(newMark);
    FormatFieldWidth(|blob|);
    var g := FlushWrites(f, oldMark, newMark, data, blob);
    FlushWritesHeader(f, oldMark, newMark, data, blob);
    FlushWritesData(f, oldMark, data, blob);
    ParseWrittenFile(g, newMark, idx);
  }


  /** A file whose header and index blob are as written reads back as that mark and index. */
  lemma ParseWrittenFile(g: Bytes, mark: nat, idx: Index)
    requires idx.Valid()
    requires mark < FieldLimit && |EncodeIndex(idx)| < FieldLimit
    requires |g| >= HeaderSize && g[..HeaderSize] == Header(mark, |EncodeIndex(idx)|)
    requires |g| >= mark + |EncodeIndex(idx)| && g[mark..mark + |EncodeIndex(idx)|] == EncodeIndex(idx)
    ensures ParseFile(g) == Ok(Persisted(mark, |EncodeIndex(idx)|, idx))
  {
    var blob := EncodeIndex(idx);
    HeaderReads(mark, |blob|, g);
    assert ReadAt(g, mark, |blob|) == blob;
    DecodeEncodeIndex(idx);
  }

  lemma FlushWritesHeader(f: Bytes, oldMark: nat, newMark: nat, data: Bytes, blob: Bytes)
    requires |f| >= HeaderSize && f[..|Magic|] == Magic && HeaderSize <= oldMark <= newMark
    requires |FormatField(newMark)| == FieldWidth && |FormatField(|blob|)| == FieldWidth
    ensures var g := FlushWrites(f, oldMark, newMark, data, blob);
      |g| >= HeaderSize && g[..HeaderSize] == Header(newMark, |blob|)
  {
    var f1 := WriteAt(f, |Magic|, FormatField(newMark));
    var f2 := WriteAt(f1, |Magic| + FieldWidth, FormatField(|blob|));
    var f3 := WriteAt(f2, oldMark, data);
    WriteAtPrefix(f, |Magic|, FormatField(newMark), |Magic|);
    WriteAtInside(f, |Magic|, FormatField(newMark));
    WriteAtPrefix(f1, |Magic| + FieldWidth, FormatField(|blob|), |Magic|);
    WriteAtOutside(f1, |Magic| + FieldWidth, FormatField(|blob|), |Magic|, |Magic| + FieldWidth);
    WriteAtInside(f1, |Magic| + FieldWidth, FormatField(|blob|));
    HeaderParts(f2, FormatField(newMark), FormatField(|blob|));
    WriteAtPrefix(f2, oldMark, data, HeaderSize);
    WriteAtPrefix(f3, newMark, blob, HeaderSize);
  }

  /** Bytes that hold the magic marker and two 48-column fields in a row start with that header. */
  lemma HeaderParts(h: Bytes, mark: Bytes, size: Bytes)
    requires |mark| == FieldWidth && |size| == FieldWidth && |h| >= HeaderSize
    requires h[..|Magic|] == Magic && h[|Magic|..|Magic| + FieldWidth] == mark
    requires h[|Magic| + FieldWidth..HeaderSize] == size
    ensures h[..HeaderSize] == Magic + mark + size
  {
    forall i | 0 <= i < HeaderSize ensures h[i] == (Magic + mark + size)[i] {
      if i < |Magic| {
        assert h[i] == h[..|Magic|][i];
      } else if i < |Magic| + FieldWidth {
        assert h[i] == h[|Magic|..|Magic| + FieldWidth][i - |Magic|];
      } else {
        assert h[i] == h[|Magic| + FieldWidth..HeaderSize][i - |Magic| - FieldWidth];
      }
    }
  }

  /** A write at pos or beyond leaves the first n <= pos bytes alone. */
  lemma WriteAtPrefix(f: Bytes, pos: nat, data: Bytes, n: nat)
    requires n <= pos && n <= |f|
    ensures var g := WriteAt(f, pos, data); n <= |g| && g[..n] == f[..n]
  {
    WriteAtContents(f, pos, data);
  }

  lemma FlushWritesData(f: Bytes, oldMark: nat, data: Bytes, blob: Bytes)
    requires |f| >= HeaderSize && HeaderSize <= oldMark <= |f|
    requires |FormatField(oldMark + |data|)| == FieldWidth && |FormatField(|blob|)| == FieldWidth
    ensures var newMark := oldMark + |data|;
      var g := FlushWrites(f, oldMark, newMark, data, blob);
      && |g| >= newMark + |blob|
      && g[HeaderSize..oldMark] == f[HeaderSize..oldMark]
      && g[oldMark..newMark] == data
      && g[newMark..newMark + |blob|] == blob
  {
    FlushKeepsOldData(f, oldMark, data, blob);
    FlushPlacesNewData(f, oldMark, data, blob);
  }

  /** The four writes of a flush leave the bytes between the header and the old mark alone. */
  lemma FlushKeepsOldData(f: Bytes, oldMark: nat, data: Bytes, blob: Bytes)
    requires |f| >= HeaderSize && HeaderSize <= oldMark <= |f|
    requires |FormatField(oldMark + |data|)| == FieldWidth && |FormatField(|blob|)| == FieldWidth
    ensures var newMark := oldMark + |data|;
      var g := FlushWrites(f, oldMark, newMark, data, blob);
      oldMark <= |g| && g[HeaderSize..oldMark] == f[HeaderSize..oldMark]
  {
    var newMark := oldMark + |data|;
    var f1 := WriteAt(f, |Magic|, FormatField(newMark));
    var f2 := WriteAt(f1, |Magic| + FieldWidth, FormatField(|blob|));
    var f3 := WriteAt(f2, oldMark, data);
    WriteAtOutside(f, |Magic|, FormatField(newMark), HeaderSize, oldMark);
    WriteAtOutside(f1, |Magic| + FieldWidth, FormatField(|blob|), HeaderSize, oldMark);
    WriteAtOutside(f2, oldMark, data, HeaderSize, oldMark);
    WriteAtOutside(f3, newMark, blob, HeaderSize, oldMark);
  }

  /** The last two writes of a flush place the buffered values and then the index blob. */
  lemma FlushPlacesNewData(f: Bytes, oldMark: nat, data: Bytes, blob: Bytes)
    requires |f| >= HeaderSize && HeaderSize <= oldMark <= |f|
    requires |FormatField(oldMark + |data|)| == FieldWidth && |FormatField(|blob|)| == FieldWidth
    ensures var newMark := oldMark + |data|;
      var g := FlushWrites(f, oldMark, newMark, data, blob);
      && |g| >= newMark + |blob|
      && g[oldMark..newMark] == data
      && g[newMark..newMark + |blob|] == blob
  {
    var newMark := oldMark + |data|;
    var f1 := WriteAt(f, |Magic|, FormatField(newMark));
    var f2 := WriteAt(f1, |Magic| + FieldWidth, FormatField(|blob|));
    var f3 := WriteAt(f2, oldMark, data);
    WriteAtInside(f2, oldMark, data);
    WriteAtOutside(f3, newMark, blob, oldMark, newMark);
    WriteAtInside(f3, newMark, blob);
  }

  lemma WriteAtInside(f: Bytes, pos: nat, data: Bytes)
    ensures var g := WriteAt(f, pos, data); pos + |data| <= |g| && g[pos..pos + |data|] == data
  {
    WriteAtContents(f, pos, data);
  }

  lemma WriteAtOutside(f: Bytes, pos: nat, data: Bytes, lo: nat, hi: nat)
    requires lo <= hi <= |f| && (hi <= pos || pos + |data| <= lo)
    ensures var g := WriteAt(f, pos, data); hi <= |g| && g[lo..hi] == f[lo..hi]
  {
    WriteAtContents(f, pos, data);
  }

  lemma DistinctSetSize(s: seq<Key>)
    requires Distinct(s)
    ensures |set k | k in s| == |s|
  {
    if s != [] {
      var n := |s| - 1;
      DistinctSetSize(s[..n]);
      assert (set k | k in s) == (set k | k in s[..n]) + {s[n]};
      assert s[n] !in s[..n];
    }
  }

  /** An index holds as many entries as keys in its order. */
  lemma IndexSize(idx: Index)
    requires idx.Valid()
    ensures |idx.order| == |idx.entries|
  {
    DistinctSetSize(idx.order);
    assert idx.entries.Keys == set k | k in idx.order;
  }
}
