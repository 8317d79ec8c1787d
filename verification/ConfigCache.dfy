/** The settings cache of src/libs/ConfigCache.cpp: a chain of sixteen-entry chunks that behaves as
    an insertion-ordered map from check sums to values. */
module ConfigCache {
  import opened Common

  type word16 = x: int | 0 <= x < 0x1_0000 witness 0

  /** The three check sums that name a setting. */
  datatype Key = Key(family: word16, name: word16, attribute: word16)

  datatype ConfigValue = ConfigValue(key: Key, value: string)

  // ---------------------------------------------------------------- the ordered map

  ghost predicate DistinctKeys(entries: seq<ConfigValue>) {
    forall p, q :: 0 <= p < q < |entries| ==> entries[p].key != entries[q].key
  }

  function IndexOf(entries: seq<ConfigValue>, key: Key): (r: Option<nat>)
    ensures r.Some? ==> r.value < |entries| && entries[r.value].key == key
    ensures r.Some? ==> forall p :: 0 <= p < r.value ==> entries[p].key != key
    ensures r.None? ==> forall p :: 0 <= p < |entries| ==> entries[p].key != key
  {
    if entries == [] then None
    else
      var n := |entries| - 1;
      var r := IndexOf(entries[..n], key);
      if r.Some? then r
      else if entries[n].key == key then Some(n)
      else None
  }

  /** A write: in place when the key is known, at the back otherwise. */
  function Write(entries: seq<ConfigValue>, v: ConfigValue): seq<ConfigValue> {
    match IndexOf(entries, v.key)
    case Some(p) => entries[p := v]
    case None => entries + [v]
  }

  function DropLast(entries: seq<ConfigValue>): seq<ConfigValue> {
    if entries == [] then [] else entries[..|entries| - 1]
  }

  /** The map the entries stand for. */
  function AsMap(entries: seq<ConfigValue>): map<Key, string> {
    if entries == [] then map[]
    else AsMap(entries[..|entries| - 1])[entries[|entries| - 1].key := entries[|entries| - 1].value]
  }

  function Keys(entries: seq<ConfigValue>): (keys: seq<Key>)
    ensures |keys| == |entries| && forall p :: 0 <= p < |keys| ==> keys[p] == entries[p].key
  {
    seq(|entries|, p requires 0 <= p < |entries| => entries[p].key)
  }

  /** Looking up in the map is finding the index in the entries. */
  lemma {:induction false} AsMapAt(entries: seq<ConfigValue>, key: Key)
    requires DistinctKeys(entries)
    ensures key in AsMap(entries) <==> IndexOf(entries, key).Some?
    ensures key in AsMap(entries) ==> AsMap(entries)[key] == entries[IndexOf(entries, key).value].value
  {
    if entries != [] {
      AsMapAt(entries[..|entries| - 1], key);
    }
  }

  lemma WriteKeepsKeysDistinct(entries: seq<ConfigValue>, v: ConfigValue)
    requires DistinctKeys(entries)
    ensures DistinctKeys(Write(entries, v))
    ensures Keys(Write(entries, v))
         == if IndexOf(entries, v.key).Some? then Keys(entries) else Keys(entries) + [v.key]
  {
  }

  /** A write is a map update that keeps keys distinct and never reorders them. */
  lemma WriteIsMapUpdate(entries: seq<ConfigValue>, v: ConfigValue)
    requires DistinctKeys(entries)
    ensures DistinctKeys(Write(entries, v))
    ensures AsMap(Write(entries, v)) == AsMap(entries)[v.key := v.value]
    ensures Keys(Write(entries, v)) == if v.key in AsMap(entries) then Keys(entries) else Keys(entries) + [v.key]
  {
    WriteKeepsKeysDistinct(entries, v);
    AsMapAt(entries, v.key);
    hide AsMap, Write, IndexOf, Keys, DistinctKeys;
    var before, after := AsMap(entries), AsMap(Write(entries, v));
    forall k: Key ensures (k in after <==> k in before || k == v.key) &&
                          (k in after ==> after[k] == if k == v.key then v.value else before[k])
    {
      SameKeys(entries, v, k);
    }
    UpdatedMap(before, after, v.key, v.value);
  }

  lemma UpdatedMap(before: map<Key, string>, after: map<Key, string>, key: Key, value: string)
    requires forall k: Key :: k in after <==> k in before || k == key
    requires forall k: Key :: k in after ==> after[k] == if k == key then value else before[k]
    ensures after == before[key := value]
  {
  }

  lemma SameKeys(entries: seq<ConfigValue>, v: ConfigValue, k: Key)
    requires DistinctKeys(entries) && DistinctKeys(Write(entries, v))
    ensures k in AsMap(Write(entries, v)) <==> k in AsMap(entries) || k == v.key
    ensures k in AsMap(Write(entries, v)) ==>
              AsMap(Write(entries, v))[k] == if k == v.key then v.value else AsMap(entries)[k]
  {
    var after := Write(entries, v);
    AsMapAt(entries, k);
    AsMapAt(after, k);
    hide AsMap;
    match IndexOf(entries, k)
    case Some(p) =>
      assert after[p].key == k;
    case None =>
      if k == v.key {
        assert after[|entries|] == v;
      }
  }

  lemma DropKeepsKeysDistinct(entries: seq<ConfigValue>)
    requires DistinctKeys(entries)
    ensures DistinctKeys(DropLast(entries))
  {
  }

  lemma DistinctWithNew(entries: seq<ConfigValue>, v: ConfigValue)
    requires DistinctKeys(entries) && IndexOf(entries, v.key).None?
    ensures DistinctKeys(entries + [v])
  {
  }

  /** A known key is overwritten where it stands. */
  lemma WriteAt(entries: seq<ConfigValue>, v: ConfigValue, p: nat)
    requires DistinctKeys(entries) && p < |entries| && entries[p].key == v.key
    ensures Write(entries, v) == entries[p := v] && DistinctKeys(entries[p := v])
  {
    WriteKeepsKeysDistinct(entries, v);
  }

  /** Dropping the newest entry removes its key and keeps every other. */
  lemma DropIsMapRemoval(entries: seq<ConfigValue>)
    requires DistinctKeys(entries) && entries != []
    ensures DistinctKeys(DropLast(entries))
    ensures AsMap(DropLast(entries)) == AsMap(entries) - {entries[|entries| - 1].key}
  {
    var n := |entries| - 1;
    AsMapAt(entries[..n], entries[n].key);
    var m := AsMap(entries[..n]);
    assert AsMap(entries) == m[entries[n].key := entries[n].value];
    hide AsMap;
    AddedThenRemoved(m, entries[n].key, entries[n].value);
  }

  lemma AddedThenRemoved(m: map<Key, string>, k: Key, v: string)
    requires k !in m
    ensures m[k := v] - {k} == m
  {
  }

  /** The names a collect gathers from the entries. */
  function Selected(entries: seq<ConfigValue>, family: word16, cs: word16): seq<word16> {
    if entries == [] then []
    else
      var n := |entries| - 1;
      var k := entries[n].key;
      Selected(entries[..n], family, cs) + if k.attribute == cs && k.family == family then [k.name] else []
  }

  lemma SelectedNone(entries: seq<ConfigValue>, family: word16, cs: word16, list: seq<word16>)
    ensures list + Selected(entries[..0], family, cs) == list
  {
  }

  lemma SelectedNext(entries: seq<ConfigValue>, p: nat, family: word16, cs: word16, list: seq<word16>)
    requires p < |entries|
    ensures var k, before := entries[p].key, list + Selected(entries[..p], family, cs);
            list + Selected(entries[..p + 1], family, cs)
            == if k.attribute == cs && k.family == family then before + [k.name] else before
  {
    assert entries[..p + 1][..p] == entries[..p];
  }

  /** Names come in the order of the entries. */
  lemma {:induction false} SelectedInOrder(a: seq<ConfigValue>, b: seq<ConfigValue>, family: word16, cs: word16)
    ensures Selected(a + b, family, cs) == Selected(a, family, cs) + Selected(b, family, cs)
    decreases |b|
  {
    if b == [] {
      assert a + b == a;
    } else {
      var n := |b| - 1;
      SelectedInOrder(a, b[..n], family, cs);
      assert (a + b)[..|a + b| - 1] == a + b[..n];
    }
  }

  /** A name is gathered exactly when the map has a setting under it, and only once. */
  lemma {:induction false} SelectedAreTheKeys(entries: seq<ConfigValue>, family: word16, cs: word16)
    requires DistinctKeys(entries)
    ensures forall name :: name in Selected(entries, family, cs) <==> Key(family, name, cs) in AsMap(entries)
    ensures forall i, j :: 0 <= i < j < |Selected(entries, family, cs)| ==>
              Selected(entries, family, cs)[i] != Selected(entries, family, cs)[j]
  {
    if entries != [] {
      var n := |entries| - 1;
      var k := entries[n].key;
      SelectedAreTheKeys(entries[..n], family, cs);
      AsMapAt(entries[..n], k);
      assert k == Key(k.family, k.name, k.attribute);
    }
  }

  // ---------------------------------------------------------------- runs

  datatype Operation = Put(v: ConfigValue, stored: bool) | Pop | Clear

  /** stored is false when a new chunk was needed and memory ran out: nothing changes. */
  function Apply(entries: seq<ConfigValue>, op: Operation): seq<ConfigValue> {
    match op
    case Put(v, stored) => if stored then Write(entries, v) else entries
    case Pop => DropLast(entries)
    case Clear => []
  }

  function Run(ops: seq<Operation>): seq<ConfigValue> {
    if ops == [] then [] else Apply(Run(ops[..|ops| - 1]), ops[|ops| - 1])
  }

  lemma {:induction false} RunKeepsKeysDistinct(ops: seq<Operation>)
    ensures DistinctKeys(Run(ops))
  {
    if ops != [] {
      RunKeepsKeysDistinct(ops[..|ops| - 1]);
      var entries := Run(ops[..|ops| - 1]);
      if ops[|ops| - 1].Put? {
        WriteKeepsKeysDistinct(entries, ops[|ops| - 1].v);
      }
    }
  }

  /** Whether an operation stores a value for key. */
  predicate Stores(op: Operation, key: Key) {
    op.Put? && op.stored && op.v.key == key
  }

  /** The value of the latest stored write of a key, whatever was popped, cleared or refused since. */
  function LastStored(ops: seq<Operation>, key: Key): Option<string> {
    if ops == [] then None
    else if Stores(ops[|ops| - 1], key) then Some(ops[|ops| - 1].v.value)
    else LastStored(ops[..|ops| - 1], key)
  }

  /** In every reachable state a key that is present holds the last value stored for it; without
      pops and clears every key ever stored is present. */
  lemma {:induction false} LookupIsLastStored(ops: seq<Operation>, key: Key)
    ensures key in AsMap(Run(ops)) ==> LastStored(ops, key) == Some(AsMap(Run(ops))[key])
    ensures (forall k :: 0 <= k < |ops| ==> ops[k].Put?) && LastStored(ops, key).Some? ==> key in AsMap(Run(ops))
  {
    hide Write, IndexOf, DistinctKeys, Keys;
    if ops != [] {
      var n := |ops| - 1;
      var before := Run(ops[..n]);
      LookupIsLastStored(ops[..n], key);
      RunKeepsKeysDistinct(ops[..n]);
      match ops[n]
      case Put(v, stored) => if stored { WriteIsMapUpdate(before, v); }
      case Pop => if before != [] { DropIsMapRemoval(before); }
      case Clear =>
    }
  }

  /** Step i stored key, and ever since the cache has been larger than it was just before. */
  ghost predicate HeldSince(ops: seq<Operation>, key: Key, i: nat) {
    i < |ops| && Stores(ops[i], key) && forall j :: i < j <= |ops| ==> |Run(ops[..j])| > |Run(ops[..i])|
  }

  /** The keys present, in every reachable state: those stored at some step with the cache larger
      ever since. */
  lemma PresentWhen(ops: seq<Operation>, key: Key)
    ensures key in AsMap(Run(ops)) <==> exists i :: HeldSince(ops, key, i)
  {
    hide AsMap, HeldSince;
    RunKeepsKeysDistinct(ops);
    AsMapAt(Run(ops), key);
    if i :| HeldSince(ops, key, i) {
      HeldIsPresent(ops, key, i);
    }
    if key in AsMap(Run(ops)) {
      var i := PresentIsHeld(ops, key, IndexOf(Run(ops), key).value);
    }
  }

  lemma {:induction false} HeldIsPresent(ops: seq<Operation>, key: Key, i: nat)
    requires HeldSince(ops, key, i)
    ensures |Run(ops[..i])| < |Run(ops)| && Run(ops)[|Run(ops[..i])|].key == key
  {
    hide DistinctKeys;
    var n := |ops| - 1;
    var before, op, at := Run(ops[..n]), ops[n], |Run(ops[..i])|;
    assert ops[..|ops|] == ops;
    RunKeepsKeysDistinct(ops[..n]);
    if op.Put? {
      WriteKeepsKeysDistinct(before, op.v);
      KeysAt(before, op.v, at);
    }
    if i < n {
      forall j | i < j <= n ensures |Run(ops[..n][..j])| > |Run(ops[..n][..i])| {
        assert ops[..n][..j] == ops[..j] && ops[..n][..i] == ops[..i];
      }
      assert ops[..n][..i] == ops[..i];
      HeldIsPresent(ops[..n], key, i);
    }
  }

  /** Where a write leaves the keys. */
  lemma KeysAt(entries: seq<ConfigValue>, v: ConfigValue, p: nat)
    ensures |entries| <= |Write(entries, v)| <= |entries| + 1
    ensures p < |entries| ==> Write(entries, v)[p].key == entries[p].key
    ensures p == |entries| < |Write(entries, v)| ==> Write(entries, v)[p].key == v.key
  {
  }

  lemma {:induction false} PresentIsHeld(ops: seq<Operation>, key: Key, p: nat) returns (i: nat)
    requires p < |Run(ops)| && Run(ops)[p].key == key
    ensures HeldSince(ops, key, i) && |Run(ops[..i])| == p
  {
    hide DistinctKeys, Write;
    var n := |ops| - 1;
    var before, op := Run(ops[..n]), ops[n];
    assert ops[..|ops|] == ops;
    if op.Put? {
      KeysAt(before, op.v, p);
    }
    if p < |before| {
      i := PresentIsHeld(ops[..n], key, p);
      assert ops[..n][..i] == ops[..i];
      forall j | i < j <= |ops| ensures |Run(ops[..j])| > p {
        assert j <= n ==> ops[..n][..j] == ops[..j];
      }
    } else {
      i := n;
    }
  }

  // ---------------------------------------------------------------- the chain of chunks

  /** uint16_t arithmetic: the count of a cache of n entries, and the two steps it takes. */
  function Count16(n: nat): word16 {
    n % 0x1_0000
  }

  function Incremented(count: word16): word16 {
    if count == 0xFFFF then 0 else count + 1
  }

  function Decremented(count: word16): word16 {
    if count == 0 then 0xFFFF else count - 1
  }

  lemma Count16Steps(n: nat)
    ensures n > 0 ==> Decremented(Count16(n)) == Count16(n - 1) && Incremented(Count16(n - 1)) == Count16(n)
    ensures Count16(0) == 0
  {
  }

  const VALUES_PER_CHUNK: nat := 16

  class Chunk {
    const values: array<ConfigValue>
    var next: Chunk?
    var used: nat

    constructor (empty: ConfigValue)
      ensures fresh(values) && values.Length == VALUES_PER_CHUNK && next == null && used == 0
    {
      values := new ConfigValue[VALUES_PER_CHUNK](_ => empty);
      next := null;
      used := 0;
    }
  }

  class Cache {
    var first: Chunk?
    var last: Chunk?
    var count: word16
    ghost var chunks: seq<Chunk>
    ghost var entries: seq<ConfigValue>

    ghost function Slots(): set<array<ConfigValue>>
      reads this`chunks
    {
      set c | c in chunks :: c.values
    }

    /** Different chunks share nothing. */
    ghost predicate Separate()
      reads this
    {
      (forall i :: 0 <= i < |chunks| ==> chunks[i].values.Length == VALUES_PER_CHUNK) &&
      (forall i, j :: 0 <= i < j < |chunks| ==> chunks[i] != chunks[j] && chunks[i].values != chunks[j].values)
    }

    /** The chunks are linked in order; all but the last are full, and the last has at least min. */
    ghost predicate Linked(min: nat)
      reads this, chunks
    {
      (if chunks == [] then first == null && last == null && entries == []
       else first == chunks[0] && last == chunks[|chunks| - 1] && last.next == null &&
            min <= last.used <= VALUES_PER_CHUNK && |entries| == 16 * (|chunks| - 1) + last.used) &&
      (forall i :: 0 <= i < |chunks| - 1 ==> chunks[i].next == chunks[i + 1] && chunks[i].used == VALUES_PER_CHUNK)
    }

    /** Entry p is slot p % 16 of chunk p / 16. */
    ghost predicate Holds()
      reads this, chunks, Slots()
      requires Separate()
    {
      forall i, k :: 0 <= i < |chunks| && 0 <= k < 16 && 16 * i + k < |entries| ==>
        entries[16 * i + k] == chunks[i].values[k]
    }

    /** All but the last chunk are full, the last is not empty, the slots hold the entries in
        order, and count is their number as a uint16_t. */
    ghost predicate Valid()
      reads this, chunks, Slots()
    {
      Separate() && Linked(1) && Holds() && count == Count16(|entries|) && DistinctKeys(entries)
    }

    constructor ()
      ensures Valid() && entries == [] && chunks == []
    {
      first := null;
      last := null;
      count := 0;
      chunks := [];
      entries := [];
    }

    method Clear()
      requires Valid()
      modifies this
      ensures Valid() && entries == []
    {
      ghost var i := 0;
      while first != null
        invariant 0 <= i <= |chunks| && chunks == old(chunks)
        invariant first == if i == |chunks| then null else chunks[i]
        decreases |chunks| - i
      {
        var next := first.next;
        first := next;
        i := i + 1;
      }
      last := null;
      count := 0;
      chunks := [];
      entries := [];
    }

    method Lookup(key: Key) returns (chunk: Chunk?, i: nat, ghost c: nat)
      requires Valid()
      ensures (chunk == null) == IndexOf(entries, key).None?
      ensures chunk != null ==> chunk in chunks && i < chunk.used && i < chunk.values.Length &&
                                chunk.values[i] == entries[IndexOf(entries, key).value] &&
                                c < |chunks| && chunk == chunks[c] && IndexOf(entries, key) == Some(16 * c + i)
    {
      chunk, i, c := first, 0, 0;
      while chunk != null
        invariant 0 <= c <= |chunks| && chunk == (if c == |chunks| then null else chunks[c])
        invariant forall p :: 0 <= p < 16 * c && p < |entries| ==> entries[p].key != key
        decreases |chunks| - c
      {
        i := 0;
        while i < chunk.used
          invariant 0 <= i <= chunk.used <= 16
          invariant forall p :: 0 <= p < 16 * c + i ==> entries[p].key != key
        {
          if chunk.values[i].key == key {
            assert entries[16 * c + i].key == key;
            return;
          }
          i := i + 1;
        }
        chunk := chunk.next;
        c := c + 1;
      }
    }

    method Pop()
      requires Valid()
      modifies this, chunks
      ensures Valid() && entries == DropLast(old(entries)) && chunks <= old(chunks)
    {
      hide DistinctKeys, Count16, Decremented;
      if last == null {
        return;
      }
      DropKeepsKeysDistinct(entries);
      last.used := last.used - 1;
      Count16Steps(|entries|);
      count := Decremented(count);
      entries := DropLast(entries);
      if last.used != 0 {
        return;
      }
      DropLastChunk();
    }

    method DropLastChunk()
      requires Separate() && Linked(0) && Holds() && last != null && last.used == 0
      requires count == Count16(|entries|) && DistinctKeys(entries)
      modifies this, chunks
      ensures Valid() && entries == old(entries) && chunks <= old(chunks)
    {
      hide DistinctKeys, Count16;
      if first == last {
        assert |chunks| == 1;
        first := null;
        last := null;
        chunks := [];
        return;
      }
      ghost var n, i := |chunks| - 1, 0;
      var previous := first;
      while previous.next != last
        invariant 0 <= i < n && previous == chunks[i]
        decreases n - i
      {
        previous := previous.next;
        i := i + 1;
      }
      assert chunks[i].next == chunks[i + 1] == chunks[n];
      last := previous;
      last.next := null;
      chunks := chunks[..n];
    }

    /** A new chunk behind the last. */
    method AppendChunk(empty: ConfigValue)
      requires Valid() && (last == null || last.used == VALUES_PER_CHUNK)
      modifies this, chunks
      ensures Separate() && Linked(0) && Holds() && last != null && last.used == 0
      ensures entries == old(entries) && count == old(count) && (forall c :: c in chunks ==> c in old(chunks) || (fresh(c) && fresh(c.values)))
    {
      var grown := new Chunk(empty);
      if last == null {
        first := grown;
      } else {
        last.next := grown;
      }
      last := grown;
      chunks := chunks + [grown];
    }

    /** The next free slot of the last chunk. */
    method StoreLast(v: ConfigValue)
      requires Separate() && Linked(0) && Holds() && last != null && last.used < VALUES_PER_CHUNK
      requires count == Count16(|entries|) && DistinctKeys(entries) && IndexOf(entries, v.key).None?
      modifies this, last, last.values
      ensures Valid() && entries == old(entries) + [v] && chunks == old(chunks) && last == old(last)
      ensures last.used == old(last.used) + 1 && last.values[old(last.used)] == v
    {
      DistinctWithNew(entries, v);
      hide DistinctKeys, Count16, Incremented, IndexOf;
      last.values[last.used] := v;
      last.used := last.used + 1;
      Count16Steps(|entries| + 1);
      count := Incremented(count);
      entries := entries + [v];
      forall j, k | 0 <= j < |chunks| && 0 <= k < 16 && 16 * j + k < |old(entries)|
        ensures entries[16 * j + k] == chunks[j].values[k]
      {
        assert old(entries)[16 * j + k] == old(chunks[j].values[k]);
        assert j == |chunks| - 1 || chunks[j].values != last.values;
      }
    }

    /** A known key's slot and its entry, changed together. */
    method StoreAt(chunk: Chunk, i: nat, v: ConfigValue, ghost c: nat)
      requires Valid() && c < |chunks| && chunk == chunks[c] && i < chunk.used && i < 16 && 16 * c + i < |entries|
      requires entries[16 * c + i].key == v.key
      modifies this, chunk.values
      ensures Valid() && entries == Write(old(entries), v) && chunk.values[i] == v && chunks == old(chunks)
    {
      WriteAt(entries, v, 16 * c + i);
      hide IndexOf, Write, DistinctKeys;
      ghost var after := Write(entries, v);
      chunk.values[i] := v;
      entries := after;
      forall j, k | 0 <= j < |chunks| && 0 <= k < 16 && 16 * j + k < |entries|
        ensures entries[16 * j + k] == chunks[j].values[k]
      {
        if j == c {
          if k != i {
            assert old(entries)[16 * j + k] == old(chunks[j].values[k]);
          }
        } else {
          assert chunks[j].values != chunk.values;
          assert old(entries)[16 * j + k] == old(chunks[j].values[k]);
        }
      }
    }

    /** The slot holding the new value, or null when a chunk was needed and there was no memory. */
    method ReplaceOrPushBack(newValue: ConfigValue, memoryLeft: bool) returns (chunk: Chunk?, i: nat)
      requires Valid()
      modifies this, chunks, Slots()
      ensures Valid() && (forall c :: c in chunks ==> c in old(chunks) || (fresh(c) && fresh(c.values)))
      ensures chunk == null <==> IndexOf(old(entries), newValue.key).None? && !memoryLeft && |old(entries)| % 16 == 0
      ensures entries == Apply(old(entries), Put(newValue, chunk != null))
      ensures chunk != null ==> chunk in chunks && i < chunk.used && i < chunk.values.Length && chunk.values[i] == newValue
    {
      hide IndexOf, DistinctKeys, Count16;
      ghost var c;
      chunk, i, c := Lookup(newValue.key);
      if chunk != null {
        StoreAt(chunk, i, newValue, c);
        return;
      }
      if last == null || last.used == VALUES_PER_CHUNK {
        if !memoryLeft {
          return null, 0;
        }
        AppendChunk(newValue);
      }
      chunk, i := last, last.used;
      StoreLast(newValue);
    }

    /** The names of one family whose attribute is cs, appended to a list in insertion order. */
    method Collect(family: word16, cs: word16, list: seq<word16>) returns (collected: seq<word16>)
      requires Valid()
      ensures collected == list + Selected(entries, family, cs)
    {
      hide DistinctKeys, Count16, Selected;
      collected := list;
      var chunk := first;
      ghost var c, p := 0, 0;
      SelectedNone(entries, family, cs, list);
      while chunk != null
        invariant 0 <= c <= |chunks| && chunk == (if c == |chunks| then null else chunks[c])
        invariant p <= |entries| && p == if c == |chunks| then |entries| else 16 * c
        invariant collected == list + Selected(entries[..p], family, cs)
        decreases |chunks| - c
      {
        var i := 0;
        while i < chunk.used
          invariant 0 <= i <= chunk.used <= 16 && p == 16 * c + i <= |entries|
          invariant collected == list + Selected(entries[..p], family, cs)
        {
          SelectedNext(entries, p, family, cs, list);
          assert entries[p] == chunk.values[i];
          if chunk.values[i].key.attribute == cs && chunk.values[i].key.family == family {
            collected := collected + [chunk.values[i].key.name];
          }
          i := i + 1;
          p := p + 1;
        }
        chunk := chunk.next;
        c := c + 1;
      }
      assert entries[..p] == entries;
    }
  }
}
