/** The entry table of an archive: Archive.ArchiveEntry and the LinkedHashMap<Integer, ArchiveEntry>
    that holds the entries, modelled as a sequence of (key, entry) pairs in insertion order. */
module EntryMap {
  import opened Wrappers
  import opened Bytes

  /** Archive.ArchiveEntry: an immutable record; the sizes are Java ints that the codec
      stores in 24 bits. */
  datatype Entry = Entry(hash: i32, uncompressedSize: nat, compressedSize: nat, data: seq<byte>)

  /** One mapping of the LinkedHashMap: the key it is stored under and its value. The key is
      the entry's hash when the entry is inserted, but rename changes only the value. */
  datatype Slot = Slot(key: i32, entry: Entry)

  /** A LinkedHashMap never holds a key twice. */
  ghost predicate UniqueKeys(s: seq<Slot>) {
    forall i, j :: 0 <= i < j < |s| ==> s[i].key != s[j].key
  }

  /** Every key is the hash its entry carries (true of everything decode and writeFile insert). */
  ghost predicate KeysAreHashes(s: seq<Slot>) {
    forall i :: 0 <= i < |s| ==> s[i].key == s[i].entry.hash
  }

  /** The position of key k in iteration order, or -1 when the map does not contain it. */
  function KeyIndex(s: seq<Slot>, k: i32): (r: int)
    ensures -1 <= r < |s|
    ensures r == -1 <==> forall i :: 0 <= i < |s| ==> s[i].key != k
    ensures r >= 0 ==> s[r].key == k && forall i :: 0 <= i < r ==> s[i].key != k
  {
    if s == [] then -1
    else if s[|s| - 1].key == k && KeyIndex(s[..|s| - 1], k) == -1 then |s| - 1
    else KeyIndex(s[..|s| - 1], k)
  }

  /** containsKey */
  predicate HasKey(s: seq<Slot>, k: i32) {
    KeyIndex(s, k) >= 0
  }

  /** get: the value stored under key k. */
  function Lookup(s: seq<Slot>, k: i32): (r: Option<Entry>)
    ensures r.Some? <==> exists i :: 0 <= i < |s| && s[i].key == k
    ensures r.Some? && UniqueKeys(s) ==> forall i :: 0 <= i < |s| && s[i].key == k ==> s[i].entry == r.value
  {
    var i := KeyIndex(s, k);
    if i < 0 then None else Some(s[i].entry)
  }

  /** The keys of the map. */
  function Keys(s: seq<Slot>): (r: set<i32>)
    ensures forall k :: k in r <==> exists i :: 0 <= i < |s| && s[i].key == k
  {
    set i | 0 <= i < |s| :: s[i].key
  }

  /** values(), in iteration order. */
  function Values(s: seq<Slot>): (r: seq<Entry>)
    ensures |r| == |s| && forall i :: 0 <= i < |s| ==> r[i] == s[i].entry
  {
    seq(|s|, i requires 0 <= i < |s| => s[i].entry)
  }

  /** put(k, e): an existing key keeps its position and gets the new value, a new key goes last. */
  function Put(s: seq<Slot>, k: i32, e: Entry): seq<Slot> {
    var i := KeyIndex(s, k);
    if i < 0 then s + [Slot(k, e)] else s[i := Slot(k, e)]
  }

  /** replace(k, e): like put when the key is present, nothing at all otherwise. */
  function Replace(s: seq<Slot>, k: i32, e: Entry): seq<Slot> {
    var i := KeyIndex(s, k);
    if i < 0 then s else s[i := Slot(k, e)]
  }

  /** remove(k) */
  function Remove(s: seq<Slot>, k: i32): seq<Slot> {
    var i := KeyIndex(s, k);
    if i < 0 then s else s[..i] + s[i + 1..]
  }

  /** Reference definition of removal: keep every mapping whose key is not k, in order. */
  function WithoutKey(s: seq<Slot>, k: i32): seq<Slot> {
    if s == [] then []
    else if s[0].key == k then WithoutKey(s[1..], k)
    else [s[0]] + WithoutKey(s[1..], k)
  }

  /** The Archive(ArchiveEntry[]) constructor: put every entry under its own hash, in order. */
  function PutAll(s: seq<Slot>, es: seq<Entry>): seq<Slot> {
    if es == [] then s
    else
      var last := es[|es| - 1];
      Put(PutAll(s, es[..|es| - 1]), last.hash, last)
  }

  /** The position of the first entry whose hash FIELD is h (the scan of indexOf and readFile),
      or -1 when there is none. */
  function FindHash(s: seq<Slot>, h: i32): (r: int)
    ensures -1 <= r < |s|
    ensures r == -1 <==> forall i :: 0 <= i < |s| ==> s[i].entry.hash != h
    ensures r >= 0 ==> s[r].entry.hash == h && forall i :: 0 <= i < r ==> s[i].entry.hash != h
  {
    if s == [] then -1
    else if s[0].entry.hash == h then 0
    else
      var r := FindHash(s[1..], h);
      if r < 0 then -1 else r + 1
  }

  // ---------------------------------------------------------------------------------------
  // Properties of the map operations

  /** put on a present key replaces the value in place; on an absent key it appends; no other
      mapping changes, and the map stays free of duplicate keys. */
  lemma PutSpec(s: seq<Slot>, k: i32, e: Entry)
    requires UniqueKeys(s)
    ensures UniqueKeys(Put(s, k, e))
    ensures Lookup(Put(s, k, e), k) == Some(e)
    ensures forall k' :: k' != k ==> Lookup(Put(s, k, e), k') == Lookup(s, k')
    ensures Keys(Put(s, k, e)) == Keys(s) + {k}
    ensures HasKey(s, k) ==> |Put(s, k, e)| == |s| && KeyIndex(Put(s, k, e), k) == KeyIndex(s, k)
    ensures HasKey(s, k) ==> forall i :: 0 <= i < |s| && s[i].key != k ==> Put(s, k, e)[i] == s[i]
    ensures !HasKey(s, k) ==> Put(s, k, e) == s + [Slot(k, e)]
  {
    PutPosition(s, k, e);
    PutLookup(s, k, e);
    PutKeys(s, k, e);
  }

  /** Where put leaves the new mapping, and that the map stays free of duplicate keys. */
  lemma PutPosition(s: seq<Slot>, k: i32, e: Entry)
    requires UniqueKeys(s)
    ensures UniqueKeys(Put(s, k, e))
    ensures KeyIndex(Put(s, k, e), k) == if HasKey(s, k) then KeyIndex(s, k) else |s|
  {
    var r := Put(s, k, e);
    KeyIndexAt(r, if HasKey(s, k) then KeyIndex(s, k) else |s|);
  }

  lemma PutLookup(s: seq<Slot>, k: i32, e: Entry)
    requires UniqueKeys(s)
    ensures Lookup(Put(s, k, e), k) == Some(e)
    ensures forall k' :: k' != k ==> Lookup(Put(s, k, e), k') == Lookup(s, k')
  {
    var r := Put(s, k, e);
    PutPosition(s, k, e);
    forall k' | k' != k ensures Lookup(r, k') == Lookup(s, k') {
      var j := KeyIndex(s, k');
      if j >= 0 {
        assert r[j] == s[j];
        assert KeyIndex(r, k') == j by { KeyIndexAt(r, j); }
      } else {
        assert KeyIndex(r, k') == -1;
      }
    }
  }

  lemma PutKeys(s: seq<Slot>, k: i32, e: Entry)
    ensures Keys(Put(s, k, e)) == Keys(s) + {k}
  {
    var r := Put(s, k, e);
    var i := if HasKey(s, k) then KeyIndex(s, k) else |s|;
    assert r[i].key == k;
    assert forall j :: 0 <= j < |r| && j != i ==> r[j] == s[j];
    forall x ensures x in Keys(r) <==> x in Keys(s) + {k} {
      if x in Keys(s) {
        var j :| 0 <= j < |s| && s[j].key == x;
        assert r[j].key == x || j == i;
      }
      if x in Keys(r) {
        var j :| 0 <= j < |r| && r[j].key == x;
        assert x == k || s[j].key == x;
      }
    }
  }

  /** In a map without duplicate keys, the mapping at position i is the one for its key. */
  lemma KeyIndexAt(s: seq<Slot>, i: nat)
    requires UniqueKeys(s) && i < |s|
    ensures KeyIndex(s, s[i].key) == i
  {
  }

  /** remove deletes exactly the mappings of key k and keeps the order of the rest. */
  lemma {:induction false} RemoveSpec(s: seq<Slot>, k: i32)
    requires UniqueKeys(s)
    ensures Remove(s, k) == WithoutKey(s, k)
    ensures UniqueKeys(Remove(s, k))
    ensures Keys(Remove(s, k)) == Keys(s) - {k}
    ensures |Remove(s, k)| == if HasKey(s, k) then |s| - 1 else |s|
  {
    var i := KeyIndex(s, k);
    if i < 0 {
      WithoutAbsent(s, k);
    } else {
      RemoveAt(s, i);
      WithoutSplit(s[..i], s[i..], k);
      assert s == s[..i] + s[i..];
      WithoutAbsent(s[..i], k);
      assert s[i..] == [s[i]] + s[i + 1..];
      WithoutAbsent(s[i + 1..], k);
    }
  }

  /** Deleting the mapping at position i of a duplicate-free map removes exactly its key. */
  lemma RemoveAt(s: seq<Slot>, i: nat)
    requires UniqueKeys(s) && i < |s|
    ensures UniqueKeys(s[..i] + s[i + 1..])
    ensures Keys(s[..i] + s[i + 1..]) == Keys(s) - {s[i].key}
  {
    var r := s[..i] + s[i + 1..];
    assert forall a :: 0 <= a < |r| ==> r[a] == s[if a < i then a else a + 1];
    forall x ensures x in Keys(r) <==> x in Keys(s) - {s[i].key} {
      if x in Keys(s) - {s[i].key} {
        var j :| 0 <= j < |s| && s[j].key == x;
        assert r[if j < i then j else j - 1].key == x;
      }
    }
  }

  lemma {:induction false} WithoutAbsent(s: seq<Slot>, k: i32)
    requires forall i :: 0 <= i < |s| ==> s[i].key != k
    ensures WithoutKey(s, k) == s
  {
    if s != [] {
      WithoutAbsent(s[1..], k);
    }
  }

  lemma {:induction false} WithoutSplit(a: seq<Slot>, b: seq<Slot>, k: i32)
    ensures WithoutKey(a + b, k) == WithoutKey(a, k) + WithoutKey(b, k)
  {
    if a != [] {
      assert (a + b)[1..] == a[1..] + b;
      WithoutSplit(a[1..], b, k);
    } else {
      assert a + b == b;
    }
  }

  /** replace changes the value of a present key in place and leaves the keys alone. */
  lemma ReplaceSpec(s: seq<Slot>, k: i32, e: Entry)
    requires UniqueKeys(s)
    ensures UniqueKeys(Replace(s, k, e)) && Keys(Replace(s, k, e)) == Keys(s)
    ensures Replace(s, k, e) == if HasKey(s, k) then Put(s, k, e) else s
  {
    if HasKey(s, k) {
      PutSpec(s, k, e);
    }
  }

  /** Inserting entries whose hashes are all distinct into an empty map rebuilds, in order,
      the map they came from: the constructor inverts values() on a map keyed by hashes. */
  lemma {:induction false} PutAllValues(s: seq<Slot>)
    requires UniqueKeys(s) && KeysAreHashes(s)
    ensures PutAll([], Values(s)) == s
  {
    if s != [] {
      var n := |s| - 1;
      PrefixOfValid(s);
      PutAllValues(s[..n]);
      PutAllLast(s);
    }
  }

  lemma PrefixOfValid(s: seq<Slot>)
    requires UniqueKeys(s) && KeysAreHashes(s) && s != []
    ensures UniqueKeys(s[..|s| - 1]) && KeysAreHashes(s[..|s| - 1])
    ensures KeyIndex(s[..|s| - 1], s[|s| - 1].key) == -1
  {
  }

  lemma PutAllLast(s: seq<Slot>)
    requires s != [] && KeyIndex(s[..|s| - 1], s[|s| - 1].key) == -1
    requires KeysAreHashes(s) && PutAll([], Values(s[..|s| - 1])) == s[..|s| - 1]
    ensures PutAll([], Values(s)) == s
  {
    var n := |s| - 1;
    assert Values(s)[..n] == Values(s[..n]);
    assert Put(s[..n], s[n].key, s[n].entry) == s;
  }

  /** PutAll never produces a duplicate key. */
  lemma {:induction false} PutAllUnique(s: seq<Slot>, es: seq<Entry>)
    requires UniqueKeys(s)
    ensures UniqueKeys(PutAll(s, es))
  {
    if es != [] {
      var last := es[|es| - 1];
      PutAllUnique(s, es[..|es| - 1]);
      PutSpec(PutAll(s, es[..|es| - 1]), last.hash, last);
    }
  }

  /** A later entry with the same hash overwrites the value of the first one but keeps its
      position: the map built from es + [e] has the keys of es in the same places. */
  lemma DuplicateKeepsPosition(es: seq<Entry>, e: Entry)
    requires HasKey(PutAll([], es), e.hash)
    ensures |PutAll([], es + [e])| == |PutAll([], es)|
    ensures KeyIndex(PutAll([], es + [e]), e.hash) == KeyIndex(PutAll([], es), e.hash)
    ensures Lookup(PutAll([], es + [e]), e.hash) == Some(e)
  {
    assert (es + [e])[..|es|] == es;
    PutAllUnique([], es);
    PutSpec(PutAll([], es), e.hash, e);
  }

  /** put of an entry under its own hash keeps every key equal to its entry's hash. */
  lemma PutKeepsHashes(s: seq<Slot>, e: Entry)
    requires KeysAreHashes(s)
    ensures KeysAreHashes(Put(s, e.hash, e))
  {
  }

  /** The map the constructor builds keys every entry by its hash. */
  lemma {:induction false} PutAllHashes(es: seq<Entry>)
    ensures KeysAreHashes(PutAll([], es))
  {
    if es != [] {
      PutAllHashes(es[..|es| - 1]);
      PutKeepsHashes(PutAll([], es[..|es| - 1]), es[|es| - 1]);
    }
  }

  /** A map without duplicate keys has one mapping per key. */
  lemma {:induction false} KeyCount(s: seq<Slot>)
    requires UniqueKeys(s)
    ensures |Keys(s)| == |s|
  {
    if s != [] {
      var n := |s| - 1;
      KeyCount(s[..n]);
      assert Keys(s) == Keys(s[..n]) + {s[n].key};
      assert s[n].key !in Keys(s[..n]);
    }
  }
}
