/** dict.c: the hash table object. Bucket arrays are updated in place; each method is tied to the
    operation on values of DictSpec, and `contents` is the map the dictionary stands for. */
module Dict {
  import opened DictSpec
  import opened DictRefinement

  class Dict<K(==, !new), V> {
    const hash: K -> nat
    var table0: array<Chain<K, V>>
    var used0: nat
    var table1: array<Chain<K, V>>
    var used1: nat
    var rehashidx: int
    var iterators: nat
    var canResize: bool
    var serial: nat
    ghost var contents: map<K, V>

    ghost function Model(): State<K, V>
      reads this, table0, table1
    {
      State(Table(table0[..], used0), Table(table1[..], used1), rehashidx, iterators)
    }

    ghost predicate Valid()
      reads this, table0, table1
    {
      table0 != table1 && Inv(Model(), hash, contents)
    }

    /** The bound the address space puts on the number of nodes. */
    ghost predicate FitsMemory()
      reads this
    {
      2 * |contents| < LONG_MAX
    }

    constructor (hash: K -> nat, canResize: bool)
      ensures Valid() && fresh(table0) && fresh(table1)
      ensures contents == map[] && this.hash == hash
      ensures Model() == State(Table([], 0), Table([], 0), -1, 0)
    {
      this.hash := hash;
      table0 := new Chain<K, V>[0];
      table1 := new Chain<K, V>[0];
      used0, used1, rehashidx, iterators, serial := 0, 0, -1, 0, 0;
      this.canResize := canResize;
      contents := map[];
      new;
      assert table0[..] == [] && table1[..] == [];
    }

    static method NextPowerOf(size: nat) returns (i: nat)
      ensures i == NextPower(size)
    {
      i := INITIAL_SIZE;
      if size >= LONG_MAX { return LONG_MAX; }
      while i < size
        invariant i > 0
        invariant NextPowerFrom(size, INITIAL_SIZE) == NextPowerFrom(size, i)
        decreases size - i
      {
        i := i * 2;
      }
    }

    method ExpandTo(size: nat) returns (ok: bool)
      requires Valid() && size < LONG_MAX
      modifies this
      ensures Valid() && contents == old(contents) && serial == old(serial)
      ensures (Model(), ok) == Expand(old(Model()), size)
      ensures fresh({table0, table1} - {old(table0), old(table1)})
    {
      hide Inv;
      InvShape(Model(), hash, contents);
      ExpandKeepsMap(Model(), size, hash, contents);
      var realsize := NextPowerOf(size);
      if rehashidx != -1 || used0 > size { return false; }
      var n := new Chain<K, V>[realsize](_ => []);
      assert n[..] == EmptyBuckets(realsize);
      if table0.Length == 0 {
        assert table0[..] == [];
        table0 := n;
        used0 := 0;
      } else {
        table1, used1, rehashidx := n, 0, 0;
      }
      return true;
    }

    method ResizeToMinimal() returns (ok: bool)
      requires Valid()
      modifies this
      ensures Valid() && contents == old(contents) && serial == old(serial)
      ensures (Model(), ok) == Resize(old(Model()), old(canResize))
      ensures ok <==> old(canResize) && old(rehashidx) == -1 && old(used0) <= INT_MAX
      ensures fresh({table0, table1} - {old(table0), old(table1)})
    {
      if !canResize || rehashidx != -1 { return false; }
      var minimal := ToInt(used0);
      if minimal < INITIAL_SIZE { minimal := INITIAL_SIZE; }
      ok := ExpandTo(minimal);
    }

    /** The inner loops of one `dictRehash` iteration: skip empty buckets, move one chain. */
    method RehashIteration() returns (done: bool)
      requires Valid() && rehashidx != -1
      modifies this, table0, table1
      ensures Valid() && contents == old(contents) && serial == old(serial) && canResize == old(canResize)
      ensures Model() == RehashOnce(old(Model()), hash)
      ensures done <==> rehashidx == -1
      ensures fresh({table0, table1} - {old(table0), old(table1)})
    {
      hide Inv, Slot, MoveChain;
      ghost var s := Model();
      InvShape(s, hash, contents);
      RehashOnceKeepsMap(s, hash, contents);
      if used0 == 0 {
        table0, used0 := table1, used1;
        table1, used1 := new Chain<K, V>[0], 0;
        rehashidx := -1;
        assert table1[..] == [];
        return true;
      }
      NonEmptyExists(s.h0.buckets, FirstNonEmpty(s.h0.buckets, s.rehashidx));
      assert rehashidx < table0.Length;
      while table0[rehashidx] == []
        invariant 0 <= rehashidx < table0.Length
        invariant Model() == s.(rehashidx := rehashidx)
        invariant table0 == old(table0) && table1 == old(table1)
        invariant contents == old(contents) && serial == old(serial) && canResize == old(canResize)
        invariant FirstNonEmpty(s.h0.buckets, s.rehashidx) == FirstNonEmpty(s.h0.buckets, rehashidx)
        invariant FirstNonEmpty(s.h0.buckets, s.rehashidx) < |s.h0.buckets|
        decreases table0.Length - rehashidx
      {
        rehashidx := rehashidx + 1;
      }
      assert rehashidx == FirstNonEmpty(s.h0.buckets, s.rehashidx);
      ghost var c := s.h0.buckets[rehashidx];
      CountUpdate(s.h0.buckets, rehashidx, []);
      assert table0[rehashidx] == c && table0[..] == s.h0.buckets && table1[..] == s.h1.buckets;
      MoveBucket();
      assert Model() == RehashOnce(s, hash);
      return false;
    }

    method MoveBucket()
      requires table0 != table1 && table1.Length > 0
      requires 0 <= rehashidx < table0.Length && used0 >= |table0[rehashidx]|
      modifies this`used0, this`used1, this`rehashidx, table0, table1
      ensures rehashidx == old(rehashidx) + 1
      ensures table0[..] == old(table0[..])[old(rehashidx) := []]
      ensures table1[..] == MoveChain(old(table0[..])[old(rehashidx)], old(table1[..]), hash)
      ensures used0 == old(used0) - |old(table0[..])[old(rehashidx)]|
      ensures used1 == old(used1) + |old(table0[..])[old(rehashidx)]|
    {
      var de := table0[rehashidx];
      ghost var n := |de|;
      while de != []
        invariant |de| <= n && used0 == old(used0) - (n - |de|) && used1 == old(used1) + (n - |de|)
        invariant MoveChain(de, table1[..], hash) == MoveChain(old(table0[..])[old(rehashidx)], old(table1[..]), hash)
        invariant rehashidx == old(rehashidx) && table0[..] == old(table0[..])
        decreases |de|
      {
        var h := Slot(hash(de[0].key), table1.Length);
        ghost var b := table1[..];
        table1[h] := [de[0]] + table1[h];
        assert table1[..] == Push(b, hash, de[0]);
        used0, used1 := used0 - 1, used1 + 1;
        de := de[1..];
      }
      table0[rehashidx] := [];
      rehashidx := rehashidx + 1;
    }

    /** `dictRehash`: n iterations unless the migration ends; the map never changes, and more
        iterations than buckets always end the migration. */
    method RehashN(n: nat) returns (more: bool)
      requires Valid()
      modifies this, table0, table1
      ensures Valid() && contents == old(contents)
      ensures more <==> Rehashing(Model())
      ensures more ==> rehashidx >= old(rehashidx) + n
      ensures old(rehashidx) != -1 && n > old(table0.Length) ==> !more
      ensures fresh({table0, table1} - {old(table0), old(table1)})
    {
      hide Inv;
      if rehashidx == -1 { return false; }
      InvShape(Model(), hash, contents);
      var left := n;
      while left > 0
        invariant Valid() && contents == old(contents) && rehashidx != -1 && left <= n
        invariant rehashidx >= old(rehashidx) + (n - left)
        invariant table0.Length == old(table0.Length)
        invariant fresh({table0, table1} - {old(table0), old(table1)})
      {
        ghost var s := Model();
        InvShape(s, hash, contents);
        RehashOnceProgress(s, hash);
        hide RehashOnce;
        var done := RehashIteration();
        if done { return false; }
        assert |Model().h0.buckets| == |s.h0.buckets|;
        left := left - 1;
      }
      InvShape(Model(), hash, contents);
      return true;
    }

    method Step()
      requires Valid()
      modifies this, table0, table1
      ensures Valid() && contents == old(contents) && serial == old(serial) && canResize == old(canResize)
      ensures Model() == RehashStep(old(Model()), hash)
      ensures fresh({table0, table1} - {old(table0), old(table1)})
    {
      hide Inv;
      InvShape(Model(), hash, contents);
      if rehashidx != -1 && iterators == 0 {
        var done := RehashIteration();
      }
    }

    static method WalkChain(c: Chain<K, V>, key: K) returns (i: nat, found: bool)
      ensures found ==> IsFirst(c, i, key)
      ensures found <==> Find(c, key).Some?
    {
      i := 0;
      while i < |c| && c[i].key != key
        invariant i <= |c|
        invariant forall j :: 0 <= j < i ==> c[j].key != key
      {
        i := i + 1;
      }
      found := i < |c|;
      if found { assert c[i] in c; }
    }

    /** The two-table search shared by find, add, delete and replace. */
    method Locate(key: K) returns (second: bool, idx: nat, i: nat, found: bool)
      requires Shape(Model()) && table0.Length > 0
      ensures found <==> Lookup(Model(), hash, key).Some?
      ensures found && !second ==>
        && idx == Slot(hash(key), table0.Length) < table0.Length && IsFirst(table0[idx], i, key)
        && LookupIn(table0[..], hash, key).Some?
      ensures found && second ==>
        && LookupIn(table0[..], hash, key).None? && LookupIn(table1[..], hash, key).Some?
        && idx == Slot(hash(key), table1.Length) < table1.Length && IsFirst(table1[idx], i, key)
    {
      hide Slot, Count;
      second, idx := false, Slot(hash(key), table0.Length);
      i, found := WalkChain(table0[idx], key);
      if found || rehashidx == -1 { return; }
      second, idx := true, Slot(hash(key), table1.Length);
      i, found := WalkChain(table1[idx], key);
    }

    method FindEntry(key: K) returns (r: Option<Entry<K, V>>)
      requires Valid()
      modifies this, table0, table1
      ensures Valid() && contents == old(contents) && serial == old(serial)
      ensures Model() == if old(table0.Length) == 0 then old(Model()) else RehashStep(old(Model()), hash)
      ensures r == Lookup(old(Model()), hash, key)
      ensures r.Some? <==> key in contents
      ensures r.Some? ==> r.value.key == key && r.value.val == contents[key]
      ensures fresh({table0, table1} - {old(table0), old(table1)})
    {
      hide Inv, Slot;
      InvFacts(Model(), hash, contents, key);
      if table0.Length == 0 {
        assert table0[..] == [] && table1[..] == [];
        return None;
      }
      InvValue(Model(), hash, contents, key);
      RehashStepKeepsMap(Model(), hash, contents);
      Step();
      InvShape(Model(), hash, contents);
      var second, idx, i, found := Locate(key);
      if !found { return None; }
      AtFirst(if second then table1[idx] else table0[idx], i, key, None);
      return Some(if second then table1[idx][i] else table0[idx][i]);
    }

    /** `_dictExpandIfNeeded`. */
    method GrowIfNeeded()
      requires Valid() && FitsMemory()
      modifies this
      ensures Valid() && contents == old(contents) && serial == old(serial)
      ensures Model() == ExpandIfNeeded(old(Model()), old(canResize)).0
      ensures table0.Length > 0
      ensures fresh({table0, table1} - {old(table0), old(table1)})
    {
      hide Inv;
      InvShape(Model(), hash, contents);
      ExpandIfNeededKeepsMap(Model(), canResize, hash, contents);
      if rehashidx != -1 { return; }
      if table0.Length == 0 {
        var expanded := ExpandTo(INITIAL_SIZE);
      } else if used0 >= table0.Length && (canResize || used0 / table0.Length > FORCE_RESIZE_RATIO) {
        var expanded := ExpandTo(used0 * 2);
      }
    }

    /** `dictAdd`: succeeds exactly when the key is new. */
    method Add(key: K, val: V) returns (ok: bool)
      requires Valid() && FitsMemory()
      modifies this, table0, table1
      ensures Valid()
      ensures ok <==> key !in old(contents)
      ensures contents == if ok then old(contents)[key := val] else old(contents)
      ensures (Model(), ok) == DictSpec.Add(old(Model()), hash, old(canResize), Entry(old(serial), key, val))
      ensures serial == if ok then old(serial) + 1 else old(serial)
      ensures fresh({table0, table1} - {old(table0), old(table1)})
    {
      hide Inv, Slot, RehashStep, ExpandIfNeeded, Inserted, Shape, LookupIn;
      ghost var s := Model();
      var e := Entry(serial, key, val);
      InvShape(s, hash, contents);
      AddIsMapInsert(s, hash, canResize, e, contents);
      RehashStepKeepsMap(s, hash, contents);
      ExpandIfNeededKeepsMap(RehashStep(s, hash), canResize, hash, contents);
      Step();
      InvShape(Model(), hash, contents);
      GrowIfNeeded();
      InvFacts(Model(), hash, contents, key);
      ok := InsertNode(e);
      if ok {
        contents := contents[key := val];
        serial := serial + 1;
      }
    }

    /** The search of `dictAddRaw`, and the linking of the node when the key is new. */
    method InsertNode(e: Entry<K, V>) returns (ok: bool)
      requires Valid() && Allocated(Model()) && Shape(Model())
      modifies this`used0, this`used1, table0, table1
      ensures (Model(), ok) == Inserted(old(Model()), hash, e)
      ensures ok <==> e.key !in contents
    {
      hide Inv, Slot, Place;
      InvFacts(Model(), hash, contents, e.key);
      var second, idx, i, found := Locate(e.key);
      if found { return false; }
      LinkNode(e);
      return true;
    }

    method LinkNode(e: Entry<K, V>)
      requires table0 != table1
      requires if rehashidx != -1 then table1.Length > 0 else table0.Length > 0
      modifies this`used0, this`used1, table0, table1
      ensures Model() == Place(old(Model()), hash, e)
      ensures rehashidx != -1 ==>
                var i := Slot(hash(e.key), table1.Length); table1[i] == [e] + old(table1[..])[i]
      ensures rehashidx == -1 ==>
                var i := Slot(hash(e.key), table0.Length); table0[i] == [e] + old(table0[..])[i]
    {
      if rehashidx != -1 {
        var index := Slot(hash(e.key), table1.Length);
        table1[index] := [e] + table1[index];
        used1 := used1 + 1;
        assert table1[..] == Push(old(table1[..]), hash, e);
      } else {
        var index := Slot(hash(e.key), table0.Length);
        table0[index] := [e] + table0[index];
        used0 := used0 + 1;
        assert table0[..] == Push(old(table0[..]), hash, e);
      }
    }

    /** `dictGenericDelete`: succeeds exactly when the key is there. */
    method Delete(key: K) returns (ok: bool)
      requires Valid()
      modifies this, table0, table1
      ensures Valid()
      ensures ok <==> key in old(contents)
      ensures contents == old(contents) - {key}
      ensures (Model(), ok) == DictSpec.Delete(old(Model()), hash, key)
      ensures serial == old(serial)
      ensures fresh({table0, table1} - {old(table0), old(table1)})
    {
      hide Inv, Slot, Shape, LookupIn, RemoveIn, RehashStep, Count, Unlinked;
      ghost var s := Model();
      InvShape(s, hash, contents);
      DeleteIsMapRemove(s, hash, key, contents);
      if table0.Length == 0 {
        contents := contents - {key};
        return false;
      }
      RehashStepKeepsMap(s, hash, contents);
      Step();
      ghost var s1 := Model();
      InvFacts(s1, hash, contents, key);
      ok := SearchAndUnlink(key);
      contents := contents - {key};
    }

    method SearchAndUnlink(key: K) returns (found: bool)
      requires table0 != table1 && Shape(Model()) && table0.Length > 0
      requires LookupIn(table0[..], hash, key).Some? ==> used0 > 0
      requires LookupIn(table1[..], hash, key).Some? ==> used1 > 0
      modifies this`used0, this`used1, table0, table1
      ensures (Model(), found) == Unlinked(old(Model()), hash, key)
    {
      hide Slot, Shape, LookupIn;
      var second, idx, i;
      second, idx, i, found := Locate(key);
      if found && !second {
        AtFirst(table0[idx], i, key, None);
        table0[idx] := table0[idx][..i] + table0[idx][i + 1..];
        used0 := used0 - 1;
        assert table0[..] == RemoveIn(old(table0[..]), hash, key);
      } else if found {
        AtFirst(table1[idx], i, key, None);
        table1[idx] := table1[idx][..i] + table1[idx][i + 1..];
        used1 := used1 - 1;
        assert table1[..] == RemoveIn(old(table1[..]), hash, key);
      }
    }

    /** `dictReplace`: adds the key, or overwrites the value of the node that holds it. */
    method Replace(key: K, val: V) returns (added: bool)
      requires Valid() && FitsMemory()
      modifies this, table0, table1
      ensures Valid()
      ensures added <==> key !in old(contents)
      ensures contents == old(contents)[key := val]
      ensures fresh({table0, table1} - {old(table0), old(table1)})
    {
      hide Inv, Slot, Count, Remove, SetVal, Find, RehashOnce, MoveChain, DictSpec.Add;
      added := Add(key, val);
      if added { return true; }
      var entry := FindEntry(key);
      ghost var s := Model();
      InvFacts(s, hash, contents, key);
      assert |s.h0.buckets| == table0.Length;
      InvShape(s, hash, contents);
      var second, idx, i, found := Locate(key);
      if !second {
        AtFirst(table0[idx], i, key, Some(val));
        SetFirstIsUpdate(s, hash, key, val, contents);
        table0[idx] := table0[idx][i := table0[idx][i].(val := val)];
        assert table0[..] == SetIn(s.h0.buckets, hash, key, val);
      } else {
        AtFirst(table1[idx], i, key, Some(val));
        SetSecondIsUpdate(s, hash, key, val, contents);
        table1[idx] := table1[idx][i := table1[idx][i].(val := val)];
        assert table1[..] == SetIn(s.h1.buckets, hash, key, val);
      }
      contents := contents[key := val];
      return false;
    }
  }
}
