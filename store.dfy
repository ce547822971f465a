/**
 * The state of an MmapDict (odin/fuel/utils.py) as plain values: the file,
 * the high-water mark, the index, the write buffer and the overlay of values
 * added since the last flush; the invariant that ties them together, what a
 * lookup reads, and how appending, deleting and flushing keep the invariant.
 */
module StoreState {
  import opened Wrappers
  import opened Codec
  import opened Layout

  /** A write buffer longer than this makes __setitem__ flush. */
  const FlushThreshold: nat := 48000

  /** marshal.loads of stored bytes. */
  function DecodeValue(b: Bytes): (r: Result<Value, StoreError>)
    ensures r.Err? ==> r.error == BadValue
  {
    match Decode(b)
    case Some(v) => Ok(v)
    case None => Err(BadValue)
  }

  /** Both header fields a flush would write fit into their 48 columns. */
  ghost predicate HeaderFits(mark: nat, idx: Index)
    requires idx.Valid()
  {
    mark < FieldLimit && |EncodeIndex(idx)| < FieldLimit
  }

  /**
   * A file this store can open and use: its header and index read back, the
   * data region starts after the header and ends at the high-water mark, and
   * every index entry lies inside the data region.
   */
  ghost predicate WellFormed(f: Bytes)
  {
    match ParseFile(f)
    case Err(_) => false
    case Ok(p) =>
      && HeaderSize <= p.mark <= |f|
      && forall k :: k in p.index.entries ==>
           HeaderSize <= p.index.entries[k].offset
           && p.index.entries[k].offset + p.index.entries[k].size <= p.mark
  }

  /** The file a new store writes is well formed, with its mark right after the header. */
  lemma NewFileWellFormed()
    ensures WellFormed(NewFile())
    ensures ParseFile(NewFile()) == Ok(Persisted(HeaderSize, |EncodeIndex(EmptyIndex)|, EmptyIndex))
  {
    NewFileParses();
  }

  /**
   * Flushing the buffer wv at the persisted mark p of a file f0 gives a file
   * holding the data of f0 below p and wv from p on.
   */
  lemma FlushKeepsData(f0: Bytes, p: nat, wv: Bytes, newMark: nat, blob: Bytes)
    requires |f0| >= HeaderSize && HeaderSize <= p <= |f0|
    requires newMark == p + |wv| && newMark < FieldLimit && |blob| < FieldLimit
    ensures var g := FlushWrites(f0, p, newMark, wv, blob);
      && newMark <= |g|
      && g[HeaderSize..p] == f0[HeaderSize..p]
      && g[p..newMark] == wv
  {
    FormatFieldWidth(newMark);
    FormatFieldWidth(|blob|);
    FlushWritesData(f0, p, wv, blob);
  }

  /** ... and whose header carries the magic and the new mark. */
  lemma FlushWritesMark(f0: Bytes, p: nat, wv: Bytes, newMark: nat, blob: Bytes)
    requires |f0| >= HeaderSize && f0[..|Magic|] == Magic && HeaderSize <= p <= |f0|
    requires newMark == p + |wv| && newMark < FieldLimit && |blob| < FieldLimit
    ensures var g := FlushWrites(f0, p, newMark, wv, blob);
      && |g| >= HeaderSize && g[..|Magic|] == Magic
      && ParseField(g[|Magic|..|Magic| + FieldWidth]) == Some(newMark)
  {
    var g := FlushWrites(f0, p, newMark, wv, blob);
    FormatFieldWidth(newMark);
    FormatFieldWidth(|blob|);
    FlushWritesHeader(f0, p, newMark, wv, blob);
    assert g[..HeaderSize][..|Magic|] == g[..|Magic|];
    assert g[..HeaderSize][|Magic|..|Magic| + FieldWidth] == g[|Magic|..|Magic| + FieldWidth];
    ParseFormatField(newMark);
  }

  /** ... and which reopens to the index written. */
  lemma FlushReopens(f0: Bytes, p: nat, wv: Bytes, idx: Index, newMark: nat)
    requires idx.Valid()
    requires |f0| >= HeaderSize && f0[..|Magic|] == Magic && HeaderSize <= p <= |f0|
    requires newMark == p + |wv| && newMark < FieldLimit && |EncodeIndex(idx)| < FieldLimit
    ensures ParseFile(FlushWrites(f0, p, newMark, wv, EncodeIndex(idx))) == Ok(Persisted(newMark, |EncodeIndex(idx)|, idx))
  {
    FlushedFile(f0, p, wv, idx, newMark);
  }

  /** The file starts with the magic and a mark field holding the persisted high-water mark p. */
  ghost predicate HeaderHolds(file: Bytes, p: int)
  {
    && HeaderSize <= p <= |file|
    && file[..|Magic|] == Magic
    && ParseField(file[|Magic|..|Magic| + FieldWidth]) == Some(p)
  }

  /**
   * Where an indexed key's bytes lie, given the persisted mark p and the write
   * buffer wv: after the header and below p + |wv|; exactly at its buffered value
   * when the key has one in the overlay nd, below p otherwise.
   */
  ghost predicate Placed(k: Key, e: Entry, p: nat, wv: Bytes, nd: map<Key, Bytes>)
  {
    && HeaderSize <= e.offset && e.offset + e.size <= p + |wv|
    && (k in nd ==> p <= e.offset && wv[e.offset - p..e.offset + e.size - p] == nd[k])
    && (k !in nd ==> e.offset + e.size <= p)
  }

  /**
   * The store's invariant: the index is an ordered dictionary, the header holds
   * the mark the buffered values will be written at (maxPosition - |wv|), and
   * every indexed key is placed.
   */
  ghost predicate Consistent(file: Bytes, maxPosition: nat, dict: Index, wv: Bytes, nd: map<Key, Bytes>)
  {
    && dict.Valid()
    && |wv| <= maxPosition
    && HeaderHolds(file, maxPosition - |wv|)
    && forall k :: k in dict.entries ==> Placed(k, dict.entries[k], maxPosition - |wv|, wv, nd)
  }

  /** self[key] over the store's fields: the overlay first, then the index and the mapped file. */
  function Read(file: Bytes, closed: bool, dict: Index, nd: map<Key, Bytes>, key: Key): (r: Result<Value, StoreError>)
    ensures r.Err? ==> r.error in {KeyNotFound, Closed, BadValue}
    ensures r.Err? && r.error == KeyNotFound <==> key !in nd && key !in dict.entries
  {
    if key in nd then DecodeValue(nd[key])
    else if key !in dict.entries then Err(KeyNotFound)
    else if closed then Err(Closed)
    else DecodeValue(ReadAt(file, dict.entries[key].offset, dict.entries[key].size))
  }

  lemma AppendPlaced(p: nat, maxPosition: nat, dict: Index, wv: Bytes, nd: map<Key, Bytes>, key: Key, enc: Bytes)
    requires dict.Valid() && key !in dict.entries && HeaderSize <= p && p + |wv| == maxPosition
    requires forall k :: k in dict.entries ==> Placed(k, dict.entries[k], p, wv, nd)
    ensures var dict' := dict.Insert(key, Entry(maxPosition, |enc|));
      forall k :: k in dict'.entries ==> Placed(k, dict'.entries[k], p, wv + enc, nd[key := enc])
  {
    var dict' := dict.Insert(key, Entry(maxPosition, |enc|));
    var wv' := wv + enc;
    forall k | k in dict'.entries
      ensures Placed(k, dict'.entries[k], p, wv', nd[key := enc])
    {
      if k == key {
        assert wv'[|wv|..|wv| + |enc|] == enc;
      } else {
        PlacedExtend(k, dict.entries[k], p, wv, nd, key, enc);
      }
    }
  }

  /** A key placed before an append stays placed: its bytes lie below the appended ones. */
  lemma PlacedExtend(k: Key, e: Entry, p: nat, wv: Bytes, nd: map<Key, Bytes>, key: Key, enc: Bytes)
    requires Placed(k, e, p, wv, nd) && k != key
    ensures Placed(k, e, p, wv + enc, nd[key := enc])
  {
    if k in nd {
      var wv' := wv + enc;
      assert wv'[e.offset - p..e.offset + e.size - p] == wv[e.offset - p..e.offset + e.size - p];
    }
  }


  lemma AppendReads(file: Bytes, closed: bool, maxPosition: nat, dict: Index, nd: map<Key, Bytes>, key: Key, enc: Bytes)
    requires dict.Valid() && key !in dict.entries
    ensures var dict' := dict.Insert(key, Entry(maxPosition, |enc|));
      && Read(file, closed, dict', nd[key := enc], key) == DecodeValue(enc)
      && forall k :: k in dict.entries ==> Read(file, closed, dict', nd[key := enc], k) == Read(file, closed, dict, nd, k)
  {
  }

  /**
   * __setitem__ without the flush: appending the encoded value of a key that is
   * not indexed keeps the invariant, makes the key read back as that value and
   * leaves every indexed key's value as it was.
   */
  lemma AppendKeeps(file: Bytes, closed: bool, maxPosition: nat, dict: Index, wv: Bytes, nd: map<Key, Bytes>, key: Key, enc: Bytes, newMark: nat)
    requires Consistent(file, maxPosition, dict, wv, nd) && key !in dict.entries
    requires newMark == maxPosition + |enc|
    ensures var dict' := dict.Insert(key, Entry(maxPosition, |enc|));
      && Consistent(file, newMark, dict', wv + enc, nd[key := enc])
      && Read(file, closed, dict', nd[key := enc], key) == DecodeValue(enc)
      && forall k :: k in dict.entries ==> Read(file, closed, dict', nd[key := enc], k) == Read(file, closed, dict, nd, k)
  {
    var p := maxPosition - |wv|;
    assert p + |wv| == maxPosition;
    var dict', wv', nd' := dict.Insert(key, Entry(maxPosition, |enc|)), wv + enc, nd[key := enc];
    assert |wv'| <= newMark && p == newMark - |wv'|;
    AppendPlaced(p, maxPosition, dict, wv, nd, key, enc);
    ConsistentAt(file, newMark, dict', wv', nd', p);
    AppendReads(file, closed, maxPosition, dict, nd, key, enc);
  }

  /** Consistent, with the persisted mark maxPosition - |wv| named p. */
  lemma ConsistentAt(file: Bytes, maxPosition: nat, dict: Index, wv: Bytes, nd: map<Key, Bytes>, p: nat)
    requires |wv| <= maxPosition && p == maxPosition - |wv|
    requires dict.Valid() && HeaderHolds(file, p)
    requires forall k :: k in dict.entries ==> Placed(k, dict.entries[k], p, wv, nd)
    ensures Consistent(file, maxPosition, dict, wv, nd)
  {
  }

  /** clear(): the empty index keeps the invariant, and only the overlay still reads. */
  lemma ClearKeeps(file: Bytes, closed: bool, maxPosition: nat, dict: Index, wv: Bytes, nd: map<Key, Bytes>)
    requires Consistent(file, maxPosition, dict, wv, nd)
    ensures Consistent(file, maxPosition, EmptyIndex, wv, nd)
    ensures forall k :: k !in nd ==> Read(file, closed, EmptyIndex, nd, k) == Err(KeyNotFound)
    ensures forall k :: k in nd ==> Read(file, closed, EmptyIndex, nd, k) == DecodeValue(nd[k])
  {
  }

  /** __delitem__: dropping an indexed key keeps the invariant. */
  lemma RemoveKeeps(file: Bytes, maxPosition: nat, dict: Index, wv: Bytes, nd: map<Key, Bytes>, key: Key)
    requires Consistent(file, maxPosition, dict, wv, nd) && key in dict.entries
    ensures Consistent(file, maxPosition, dict.Remove(key), wv, nd)
  {
  }

  lemma FlushPlaced(f0: Bytes, p: nat, newMark: nat, dict: Index, wv: Bytes, nd: map<Key, Bytes>, g: Bytes)
    requires HeaderSize <= p <= |f0| && newMark == p + |wv| && newMark <= |g|
    requires g[HeaderSize..p] == f0[HeaderSize..p] && g[p..newMark] == wv
    requires forall k :: k in dict.entries ==> Placed(k, dict.entries[k], p, wv, nd)
    ensures forall k :: k in dict.entries ==> Placed(k, dict.entries[k], newMark, [], map[])
    ensures forall k :: k in dict.entries ==> Read(g, false, dict, map[], k) == Read(f0, false, dict, nd, k)
  {
    forall k | k in dict.entries
      ensures Placed(k, dict.entries[k], newMark, [], map[])
      ensures Read(g, false, dict, map[], k) == Read(f0, false, dict, nd, k)
    {
      var e := dict.entries[k];
      assert Placed(k, e, p, wv, nd);
      if k in nd {
        SliceOfSlice(g, p, wv, e.offset, e.offset + e.size);
      } else {
        SameSlice(g, f0, HeaderSize, p, e.offset, e.offset + e.size);
      }
    }
  }

  /** flush() re-reads the persisted mark from the header: it is the mark minus the buffered bytes. */
  lemma HeaderMark(file: Bytes, maxPosition: nat, dict: Index, wv: Bytes, nd: map<Key, Bytes>)
    requires Consistent(file, maxPosition, dict, wv, nd)
    ensures ParseField(ReadAt(file, |Magic|, FieldWidth)) == Some(maxPosition - |wv|)
  {
    assert ReadAt(file, |Magic|, FieldWidth) == file[|Magic|..|Magic| + FieldWidth];
  }

  /** flush() re-reads the persisted high-water mark from the header: int(file[8:56]). */
  method ReadMark(file: Bytes, ghost maxPosition: nat, ghost dict: Index, ghost wv: Bytes, ghost nd: map<Key, Bytes>) returns (m: nat)
    requires Consistent(file, maxPosition, dict, wv, nd)
    ensures m == maxPosition - |wv|
  {
    HeaderMark(file, maxPosition, dict, wv, nd);
    m := ParseField(ReadAt(file, |Magic|, FieldWidth)).value;
  }

  /** With nothing buffered, the invariant is the header plus every entry lying in the data region. */
  lemma ConsistentDrained(file: Bytes, maxPosition: nat, dict: Index)
    requires dict.Valid() && |file| >= HeaderSize && maxPosition <= |file| && HeaderSize <= maxPosition
    requires file[..|Magic|] == Magic && ParseField(file[|Magic|..|Magic| + FieldWidth]) == Some(maxPosition)
    requires forall k :: k in dict.entries ==> Placed(k, dict.entries[k], maxPosition, [], map[])
    ensures Consistent(file, maxPosition, dict, [], map[])
  {
    var empty: Bytes := [];
    assert maxPosition - |empty| == maxPosition;
  }

  /**
   * flush(): writing the buffer at the persisted mark and the index after it
   * gives a file g that satisfies the invariant with an empty buffer and
   * overlay, keeps every byte of the data region below the old mark, and reads
   * every indexed key's value as before.
   */
  lemma FlushKeeps(f0: Bytes, p: nat, maxPosition: nat, dict: Index, wv: Bytes, nd: map<Key, Bytes>, g: Bytes)
    requires Consistent(f0, maxPosition, dict, wv, nd) && p + |wv| == maxPosition
    requires maxPosition < FieldLimit && |EncodeIndex(dict)| < FieldLimit
    requires g == FlushWrites(f0, p, maxPosition, wv, EncodeIndex(dict))
    ensures Consistent(g, maxPosition, dict, [], map[])
    ensures g[HeaderSize..p] == f0[HeaderSize..p]
    ensures forall k :: k in dict.entries ==> Read(g, false, dict, map[], k) == Read(f0, false, dict, nd, k)
  {
    var blob := EncodeIndex(dict);
    FlushKeepsData(f0, p, wv, maxPosition, blob);
    FlushWritesMark(f0, p, wv, maxPosition, blob);
    FlushPlaced(f0, p, maxPosition, dict, wv, nd, g);
    ConsistentDrained(g, maxPosition, dict);
  }

  /** A flushed file, read back, is well formed and yields the index that was written. */
  lemma FlushReopensWellFormed(f0: Bytes, p: nat, maxPosition: nat, dict: Index, wv: Bytes, nd: map<Key, Bytes>)
    requires Consistent(f0, maxPosition, dict, wv, nd) && p + |wv| == maxPosition
    requires maxPosition < FieldLimit && |EncodeIndex(dict)| < FieldLimit
    ensures var g := FlushWrites(f0, p, maxPosition, wv, EncodeIndex(dict));
      && ParseFile(g) == Ok(Persisted(maxPosition, |EncodeIndex(dict)|, dict))
      && WellFormed(g)
  {
    var g := FlushWrites(f0, p, maxPosition, wv, EncodeIndex(dict));
    FlushKeeps(f0, p, maxPosition, dict, wv, nd, g);
    FlushReopens(f0, p, wv, dict, maxPosition);
    forall k | k in dict.entries
      ensures HeaderSize <= dict.entries[k].offset && dict.entries[k].offset + dict.entries[k].size <= maxPosition
    {
      assert Placed(k, dict.entries[k], maxPosition, [], map[]);
    }
  }

  lemma OpenedHeader(f: Bytes)
    requires WellFormed(f)
    ensures ParseFile(f).Ok? && HeaderHolds(f, ParseFile(f).value.mark)
  {
    assert f[|Magic|..|Magic| + FieldWidth] == ReadAt(f, |Magic|, FieldWidth);
  }

  lemma OpenedPlaced(f: Bytes)
    requires WellFormed(f)
    ensures ParseFile(f).Ok?
    ensures var p := ParseFile(f).value;
      forall k :: k in p.index.entries ==> Placed(k, p.index.entries[k], p.mark, [], map[])
  {
  }

  /** Opening a well-formed file gives a consistent store with an empty buffer and overlay. */
  lemma OpenedConsistent(f: Bytes)
    requires WellFormed(f)
    ensures ParseFile(f).Ok?
    ensures Consistent(f, ParseFile(f).value.mark, ParseFile(f).value.index, [], map[])
  {
    var p := ParseFile(f).value;
    OpenedHeader(f);
    OpenedPlaced(f);
    ConsistentDrained(f, p.mark, p.index);
  }


  /** A permutation of 0 .. n-1, as the random generator's shuffle produces. */
  ghost predicate IsPermutation(perm: seq<nat>, n: nat)
  {
    && |perm| == n
    && Distinct(perm)
    && (forall i :: 0 <= i < n ==> perm[i] < n)
    && (forall m :: 0 <= m < n ==> m in perm)
  }

  /** The list s rearranged so that position i holds s[perm[i]]. */
  function Permute<T>(s: seq<T>, perm: seq<nat>): (r: seq<T>)
    requires |perm| == |s| && forall i :: 0 <= i < |perm| ==> perm[i] < |s|
    ensures |r| == |s|
  {
    seq(|s|, i requires 0 <= i < |s| => s[perm[i]])
  }

  lemma DistinctMultiplicity<T>(s: seq<T>)
    requires Distinct(s)
    ensures forall x :: multiset(s)[x] == if x in s then 1 else 0
  {
    if s != [] {
      var n := |s| - 1;
      assert s == s[..n] + [s[n]];
      DistinctMultiplicity(s[..n]);
      assert s[n] !in s[..n];
    }
  }

  /** A shuffled list holds each key exactly as often as the original. */
  lemma PermuteIsPermutation<T>(s: seq<T>, perm: seq<nat>)
    requires Distinct(s) && IsPermutation(perm, |s|)
    ensures Distinct(Permute(s, perm))
    ensures multiset(Permute(s, perm)) == multiset(s)
  {
    var r := Permute(s, perm);
    forall i, j | 0 <= i < j < |r| ensures r[i] != r[j] {
      assert perm[i] != perm[j];
    }
    forall x | x in s ensures x in r {
      var m :| 0 <= m < |s| && s[m] == x;
      assert m in perm;
      var i :| 0 <= i < |perm| && perm[i] == m;
      assert r[i] == x;
    }
    DistinctMultiplicity(s);
    DistinctMultiplicity(r);
    assert forall x :: multiset(r)[x] == multiset(s)[x];
  }

  lemma SameSlice(a: Bytes, b: Bytes, lo: nat, hi: nat, x: nat, y: nat)
    requires lo <= x <= y <= hi <= |a| && hi <= |b| && a[lo..hi] == b[lo..hi]
    ensures a[x..y] == b[x..y]
  {
    forall i | x <= i < y ensures a[i] == b[i] {
      assert a[i] == a[lo..hi][i - lo];
      assert b[i] == b[lo..hi][i - lo];
    }
  }

  lemma SliceOfSlice(a: Bytes, p: nat, w: Bytes, x: nat, y: nat)
    requires p + |w| <= |a| && a[p..p + |w|] == w && p <= x <= y <= p + |w|
    ensures a[x..y] == w[x - p..y - p]
  {
    assert forall i :: x <= i < y ==> a[i] == a[p..p + |w|][i - p];
  }

}
