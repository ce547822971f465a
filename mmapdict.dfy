/**
 * MmapDict (odin/fuel/utils.py): an insert-only key/value store kept in one
 * file. Values are appended to a write buffer and to an overlay of recently
 * added entries; flush writes the buffer at the old high-water mark, the
 * pickled index after it, and rewrites the header. The invariant and the
 * proofs about the state are in StoreState; the class carries the state and
 * performs each operation step by step.
 */
module MmapStore {
  import opened Wrappers
  import opened Codec
  import opened Layout
  import opened StoreState

  class MmapDict {
    /** The file's bytes, as the shared memory map sees them. */
    var file: Bytes
    var readOnly: bool
    /** Set by close: the map and the file handle are released. */
    var closed: bool
    /** _max_position: the high-water mark including the unflushed values. */
    var maxPosition: nat
    /** _dict: every key and where its value lies. */
    var dict: Index
    /** _write_value: the encoded values added since the last flush, in order. */
    var writeValue: Bytes
    /** _new_dict: key -> encoded value for everything added since the last flush. */
    var newDict: map<Key, Bytes>

    /** The high-water mark the file's header holds: where the buffered values will be written. */
    ghost function PersistedMark(): int
      reads this`maxPosition, this`writeValue
    {
      maxPosition - |writeValue|
    }

    /** The header, the index, the buffer and the overlay agree with each other. */
    ghost predicate Valid()
      reads this
    {
      Consistent(file, maxPosition, dict, writeValue, newDict)
    }

    /** self[key]: the overlay first, then the index and the mapped file. */
    function Lookup(key: Key): Result<Value, StoreError>
      reads this
    {
      Read(file, closed, dict, newDict, key)
    }

    constructor Init(file: Bytes, readOnly: bool, mark: nat, dict: Index)
      ensures this.file == file && this.readOnly == readOnly && !closed
      ensures maxPosition == mark && this.dict == dict
      ensures writeValue == [] && newDict == map[]
    {
      this.file := file;
      this.readOnly := readOnly;
      this.closed := false;
      this.maxPosition := mark;
      this.dict := dict;
      this.writeValue := [];
      this.newDict := map[];
    }

    /**
     * MmapDict(path, read_only). `disk` is the file at the path: None when it
     * does not exist. A missing or empty file is created with an empty index,
     * unless the store is read-only; an existing one is read.
     */
    static method Open(disk: Option<Bytes>, readOnly: bool) returns (r: Result<MmapDict, StoreError>)
      ensures (disk.None? || disk.value == []) && readOnly ==> r == Err(NotFound)
      ensures (disk.None? || disk.value == []) && !readOnly ==>
        && r.Ok? && fresh(r.value) && r.value.Valid()
        && r.value.file == NewFile() && r.value.maxPosition == HeaderSize && r.value.dict == EmptyIndex
      ensures disk.Some? && disk.value != [] ==>
        match ParseFile(disk.value)
        case Err(e) => r == Err(e)
        case Ok(p) =>
          && r.Ok? && fresh(r.value)
          && r.value.file == disk.value && r.value.maxPosition == p.mark && r.value.dict == p.index
          && (WellFormed(disk.value) ==> r.value.Valid())
      ensures r.Ok? ==> r.value.readOnly == readOnly && !r.value.closed
      ensures r.Ok? ==> r.value.writeValue == [] && r.value.newDict == map[]
    {
      if disk.Some? && disk.value != [] {
        var f := disk.value;
        var p := ParseFile(f);
        if p.Err? {
          return Err(p.error);
        }
        var store := new MmapDict.Init(f, readOnly, p.value.mark, p.value.index);
        if WellFormed(f) {
          OpenedConsistent(f);
        }
        return Ok(store);
      }
      if readOnly {
        return Err(NotFound);
      }
      var f := NewFile();
      NewFileWellFormed();
      OpenedConsistent(f);
      var store := new MmapDict.Init(f, readOnly, HeaderSize, EmptyIndex);
      return Ok(store);
    }

    /**
     * flush(): re-reads the persisted mark from the header, writes the new mark
     * and the index length into the header, the buffer at the old mark and the
     * index after it, then empties the buffer and the overlay. A read-only
     * store refuses; a closed one fails at the first step, flushing the
     * released map.
     */
    method Flush() returns (r: Outcome<StoreError>)
      requires Valid()
      requires !readOnly && !closed ==> HeaderFits(maxPosition, dict)
      modifies this`file, this`maxPosition, this`writeValue, this`newDict
      ensures Valid()
      ensures old(readOnly) || old(closed) ==>
        && r == (if old(readOnly) then Fail(ReadOnly) else Fail(Closed))
        && file == old(file) && maxPosition == old(maxPosition) && writeValue == old(writeValue) && newDict == old(newDict)
      ensures !old(readOnly) && !old(closed) ==>
        && r == Pass
        && file == FlushWrites(old(file), old(PersistedMark()), old(maxPosition), old(writeValue), EncodeIndex(old(dict)))
        && maxPosition == old(maxPosition)
        && writeValue == [] && newDict == map[]
      ensures !old(readOnly) && !old(closed) ==>
        forall k :: k in old(dict.entries) ==> Read(file, false, dict, newDict, k) == Read(old(file), false, old(dict), old(newDict), k)
    {
      if readOnly {
        return Fail(ReadOnly);
      }
      if closed {
        return Fail(Closed);
      }
      var f, mark, d, values, nd := file, maxPosition, dict, writeValue, newDict;
      var oldPosition := ReadMark(f, mark, d, values, nd);
      assert oldPosition == old(PersistedMark());
      var g := FlushWrites(f, oldPosition, mark, values, EncodeIndex(d));
      FlushKeeps(f, oldPosition, mark, d, values, nd, g);
      file, maxPosition, writeValue, newDict := g, mark, [], map[];
      r := Pass;
    }

    /** The unflushed half of self[key] = value: the encoded value goes to the buffer, the index and the overlay. */
    method Append(key: Key, encoded: Bytes)
      requires Valid() && key !in dict.entries
      modifies this`maxPosition, this`dict, this`writeValue, this`newDict
      ensures Valid() && PersistedMark() == old(PersistedMark())
      ensures dict == old(dict).Insert(key, Entry(old(maxPosition), |encoded|))
      ensures maxPosition == old(maxPosition) + |encoded|
      ensures writeValue == old(writeValue) + encoded && newDict == old(newDict)[key := encoded]
      ensures Read(file, closed, dict, newDict, key) == DecodeValue(encoded)
      ensures forall k :: k in old(dict.entries) ==> Read(file, closed, dict, newDict, k) == Read(file, closed, old(dict), old(newDict), k)
    {
      var f, m, d, w, n := file, maxPosition, dict, writeValue, newDict;
      var newMark := m + |encoded|;
      AppendKeeps(f, closed, m, d, w, n, key, encoded, newMark);
      dict, maxPosition, writeValue, newDict := d.Insert(key, Entry(m, |encoded|)), newMark, w + encoded, n[key := encoded];
    }

    /**
     * self[key] = value: rejects a key already in the index; otherwise appends
     * the encoded value at the high-water mark, records it in the index and the
     * overlay, and flushes once the buffer exceeds 48000 bytes.
     */
    method Set(key: Key, value: Value) returns (r: Outcome<StoreError>)
      requires Valid()
      requires key !in dict.entries && !readOnly && !closed && |writeValue| + |Encode(value)| > FlushThreshold ==>
        HeaderFits(maxPosition + |Encode(value)|, dict.Insert(key, Entry(maxPosition, |Encode(value)|)))
      modifies this`file, this`maxPosition, this`dict, this`writeValue, this`newDict
      ensures Valid()
      ensures old(key in dict.entries) ==>
        && r == Fail(DuplicateKey) && file == old(file) && maxPosition == old(maxPosition) && dict == old(dict)
        && writeValue == old(writeValue) && newDict == old(newDict)
      ensures !old(key in dict.entries) ==> dict == old(dict).Insert(key, Entry(old(maxPosition), |Encode(value)|))
      ensures !old(key in dict.entries) ==> maxPosition == old(maxPosition) + |Encode(value)|
      ensures !old(key in dict.entries) ==> |old(writeValue)| + |Encode(value)| <= FlushThreshold ==>
        && r == Pass && file == old(file)
        && writeValue == old(writeValue) + Encode(value) && newDict == old(newDict)[key := Encode(value)]
      ensures !old(key in dict.entries) ==> |old(writeValue)| + |Encode(value)| > FlushThreshold && (readOnly || closed) ==>
        && r == (if readOnly then Fail(ReadOnly) else Fail(Closed)) && file == old(file)
        && writeValue == old(writeValue) + Encode(value) && newDict == old(newDict)[key := Encode(value)]
      ensures !old(key in dict.entries) ==> |old(writeValue)| + |Encode(value)| > FlushThreshold && !readOnly && !closed ==>
        && r == Pass
        && file == FlushWrites(old(file), old(PersistedMark()), maxPosition, old(writeValue) + Encode(value), EncodeIndex(dict))
        && writeValue == [] && newDict == map[]
      ensures !old(key in dict.entries) ==> r == Pass ==> Read(file, closed, dict, newDict, key) == Ok(value)
      ensures !old(key in dict.entries) ==> r == Pass ==>
        forall k :: k in old(dict.entries) ==> Read(file, closed, dict, newDict, k) == Read(old(file), closed, old(dict), old(newDict), k)
    {
      if key in dict.entries {
        return Fail(DuplicateKey);
      }
      r := Add(key, value);
    }

    /** self[key] = value for a key not in the index: append, then flush once the buffer is over the threshold. */
    method Add(key: Key, value: Value) returns (r: Outcome<StoreError>)
      requires Valid() && key !in dict.entries
      requires !readOnly && !closed && |writeValue| + |Encode(value)| > FlushThreshold ==>
        HeaderFits(maxPosition + |Encode(value)|, dict.Insert(key, Entry(maxPosition, |Encode(value)|)))
      modifies this`file, this`maxPosition, this`dict, this`writeValue, this`newDict
      ensures Valid()
      ensures dict == old(dict).Insert(key, Entry(old(maxPosition), |Encode(value)|))
      ensures maxPosition == old(maxPosition) + |Encode(value)|
      ensures |old(writeValue)| + |Encode(value)| <= FlushThreshold ==>
        && r == Pass && file == old(file)
        && writeValue == old(writeValue) + Encode(value) && newDict == old(newDict)[key := Encode(value)]
      ensures |old(writeValue)| + |Encode(value)| > FlushThreshold && (readOnly || closed) ==>
        && r == (if readOnly then Fail(ReadOnly) else Fail(Closed)) && file == old(file)
        && writeValue == old(writeValue) + Encode(value) && newDict == old(newDict)[key := Encode(value)]
      ensures |old(writeValue)| + |Encode(value)| > FlushThreshold && !readOnly && !closed ==>
        && r == Pass
        && file == FlushWrites(old(file), old(PersistedMark()), maxPosition, old(writeValue) + Encode(value), EncodeIndex(dict))
        && writeValue == [] && newDict == map[]
      ensures r == Pass ==> Read(file, closed, dict, newDict, key) == Ok(value)
      ensures r == Pass ==>
        forall k :: k in old(dict.entries) ==> Read(file, closed, dict, newDict, k) == Read(old(file), closed, old(dict), old(newDict), k)
    {
      var encoded := Encode(value);
      DecodeEncode(value);
      var pending := |writeValue| + |encoded|;
      Append(key, encoded);
      if pending <= FlushThreshold {
        r := Pass;
      } else {
        r := Flush();
      }
    }

    /** self[key]. */
    method Get(key: Key) returns (r: Result<Value, StoreError>)
      ensures r == Lookup(key)
    {
      if key in newDict {
        return DecodeValue(newDict[key]);
      }
      if key !in dict.entries {
        return Err(KeyNotFound);
      }
      if closed {
        return Err(Closed);
      }
      var e := dict.entries[key];
      r := DecodeValue(ReadAt(file, e.offset, e.size));
    }

    /** key in self: asks the index only. */
    method Contains(key: Key) returns (b: bool)
      requires Valid()
      ensures b <==> key in dict.entries
      ensures b <==> key in dict.order
    {
      b := key in dict.entries;
    }

    /** len(self): the number of keys in the index. */
    method Len() returns (n: nat)
      requires Valid()
      ensures n == |dict.order| && n == |dict.entries|
    {
      IndexSize(dict);
      n := |dict.order|;
    }

    /**
     * del self[key]: drops the key from the index; no byte is reclaimed and the
     * overlay is left alone, so a key added since the last flush still reads.
     */
    method Delete(key: Key) returns (r: Outcome<StoreError>)
      requires Valid()
      modifies this`dict
      ensures Valid()
      ensures old(key in dict.entries) ==> r == Pass && dict == old(dict).Remove(key)
      ensures old(key !in dict.entries) ==> r == Fail(KeyNotFound) && dict == old(dict)
      ensures key !in dict.entries && !(key in newDict && Lookup(key).Err? && Lookup(key).error == KeyNotFound)
      ensures forall k :: k != key ==> Lookup(k) == old(Lookup(k))
    {
      if key !in dict.entries {
        return Fail(KeyNotFound);
      }
      RemoveKeeps(file, maxPosition, dict, writeValue, newDict, key);
      dict := dict.Remove(key);
      r := Pass;
    }

    /** clear(): empties the index; the file, the buffer and the overlay stay. */
    method Clear()
      requires Valid()
      modifies this`dict
      ensures Valid() && dict == EmptyIndex
      ensures forall k :: k !in newDict ==> Lookup(k) == Err(KeyNotFound)
      ensures forall k :: k in newDict ==> Lookup(k) == DecodeValue(newDict[k])
    {
      ClearKeeps(file, closed, maxPosition, dict, writeValue, newDict);
      dict := EmptyIndex;
    }

    /** keys(shuffle): the index keys, in insertion order or rearranged by the random permutation perm. */
    method Keys(shuffle: bool, perm: seq<nat>) returns (ks: seq<Key>)
      requires Valid()
      requires shuffle ==> IsPermutation(perm, |dict.order|)
      ensures !shuffle ==> ks == dict.order
      ensures shuffle ==> ks == Permute(dict.order, perm)
      ensures Distinct(ks) && multiset(ks) == multiset(dict.order)
      ensures forall k :: k in ks <==> k in dict.entries
    {
      ks := dict.order;
      if shuffle {
        PermuteIsPermutation(dict.order, perm);
        ks := Permute(ks, perm);
      }
      assert forall k :: k in ks <==> k in multiset(ks);
    }

    /**
     * iteritems(shuffle): every indexed key with its decoded value, reading the
     * overlay first and the mapped file otherwise. The first value that cannot
     * be read ends the iteration with that error.
     */
    method Items(shuffle: bool, perm: seq<nat>) returns (r: Result<seq<(Key, Value)>, StoreError>)
      requires Valid()
      requires shuffle ==> IsPermutation(perm, |dict.order|)
      ensures var ks := if shuffle then Permute(dict.order, perm) else dict.order;
        && (r.Ok? <==> forall i :: 0 <= i < |ks| ==> Lookup(ks[i]).Ok?)
        && (r.Ok? ==> |r.value| == |ks| && forall i :: 0 <= i < |ks| ==> r.value[i] == (ks[i], Lookup(ks[i]).value))
        && (r.Err? ==> exists i :: 0 <= i < |ks| && Lookup(ks[i]) == Err(r.error)
                                  && forall j :: 0 <= j < i ==> Lookup(ks[j]).Ok?)
    {
      var ks := dict.order;
      if shuffle {
        ks := Permute(ks, perm);
      }
      var out: seq<(Key, Value)> := [];
      var i := 0;
      while i < |ks|
        invariant 0 <= i <= |ks| && |out| == i
        invariant forall j :: 0 <= j < i ==> Lookup(ks[j]).Ok? && out[j] == (ks[j], Lookup(ks[j]).value)
      {
        var key := ks[i];
        var v := Get(key);
        if v.Err? {
          return Err(v.error);
        }
        out := out + [(key, v.value)];
        i := i + 1;
      }
      r := Ok(out);
    }

    /**
     * close(): flushes a writable store, then releases the map and the file.
     * Closing a writable store twice fails in that flush; closing a read-only
     * one again only releases the released map once more.
     */
    method Close() returns (r: Outcome<StoreError>)
      requires Valid()
      requires !readOnly && !closed ==> HeaderFits(maxPosition, dict)
      modifies this`file, this`maxPosition, this`writeValue, this`newDict, this`closed
      ensures Valid()
      ensures old(readOnly) ==> r == Pass && closed && file == old(file) && maxPosition == old(maxPosition) && writeValue == old(writeValue) && newDict == old(newDict)
      ensures !old(readOnly) && old(closed) ==> r == Fail(Closed) && file == old(file) && maxPosition == old(maxPosition) && writeValue == old(writeValue) && newDict == old(newDict) && closed
      ensures !old(readOnly) && !old(closed) ==>
        && r == Pass && closed
        && file == FlushWrites(old(file), old(PersistedMark()), old(maxPosition), old(writeValue), EncodeIndex(old(dict)))
        && writeValue == [] && newDict == map[]
        && ParseFile(file) == Ok(Persisted(maxPosition, |EncodeIndex(dict)|, dict)) && WellFormed(file)
    {
      if !readOnly {
        if !closed {
          ghost var mark := PersistedMark();
          FlushReopensWellFormed(file, mark, maxPosition, dict, writeValue, newDict);
        }
        r := Flush();
        if r.Fail? {
          return;
        }
      }
      closed := true;
      r := Pass;
    }
  }
}
