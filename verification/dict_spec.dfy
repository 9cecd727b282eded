/** The hash table of dict.c as a value: two chained tables, of which the second exists only
    while buckets migrate. The operations are functions on that value; dict.dfy holds the
    class whose methods compute them in place. */
module DictSpec {

  datatype Option<+T> = None | Some(value: T)

  /** A chain node. `id` stands for the node's identity (its address in the C code): two nodes
      allocated at different times have different ids even when they hold the same key. */
  datatype Entry<K, V> = Entry(id: nat, key: K, val: V)

  type Chain<K, V> = seq<Entry<K, V>>
  type Buckets<K, V> = seq<Chain<K, V>>

  /** `dictht`: the size is the number of buckets, `used` the number of stored nodes. */
  datatype Table<K, V> = Table(buckets: Buckets<K, V>, used: nat)

  datatype State<K, V> = State(h0: Table<K, V>, h1: Table<K, V>, rehashidx: int, iterators: nat)

  const INITIAL_SIZE: nat := 4
  const FORCE_RESIZE_RATIO: nat := 5
  const LONG_MAX: nat := 0x7FFF_FFFF_FFFF_FFFF
  const INT_MAX: int := 0x7FFF_FFFF

  function Pow(k: nat): (p: nat)
    ensures p >= 1
  {
    if k == 0 then 1 else 2 * Pow(k - 1)
  }

  /** A power of two that fits an unsigned 64-bit word. */
  ghost predicate PowerOfTwo(n: nat) {
    exists k: nat :: k < 64 && n == Pow(k)
  }

  predicate Rehashing<K, V>(s: State<K, V>) {
    s.rehashidx != -1
  }

  // ---------------------------------------------------------------- chains and tables

  /** `h & sizemask` bit by bit, where `sizemask` is `size - 1`: as many low bits of the hash as the
      size has halvings. */
  function Slot(h: nat, size: nat): (i: nat)
    ensures size > 0 ==> i < size
    decreases size
  {
    if size <= 1 then 0 else h % 2 + 2 * Slot(h / 2, size / 2)
  }

  /** The first node of the chain holding the key. */
  function Find<K(==), V>(c: Chain<K, V>, key: K): (r: Option<Entry<K, V>>)
    ensures r.Some? ==> r.value in c && r.value.key == key
    ensures r.None? ==> forall e :: e in c ==> e.key != key
  {
    if c == [] then None
    else if c[0].key == key then Some(c[0])
    else Find(c[1..], key)
  }

  function Remove<K(==), V>(c: Chain<K, V>, key: K): (r: Chain<K, V>)
    ensures forall e :: e in r ==> e in c
  {
    if c == [] then []
    else if c[0].key == key then c[1..]
    else [c[0]] + Remove(c[1..], key)
  }

  ghost predicate DistinctKeys<K, V>(c: Chain<K, V>) {
    forall i, j :: 0 <= i < j < |c| ==> c[i].key != c[j].key
  }

  ghost predicate Placed<K, V>(b: Buckets<K, V>, hash: K -> nat) {
    forall i, e :: 0 <= i < |b| && e in b[i] ==> Slot(hash(e.key), |b|) == i
  }

  ghost predicate WellFormed<K, V>(b: Buckets<K, V>, hash: K -> nat) {
    && Placed(b, hash)
    && forall i :: 0 <= i < |b| ==> DistinctKeys(b[i])
  }

  function Count<K, V>(b: Buckets<K, V>): nat {
    if b == [] then 0 else |b[0]| + Count(b[1..])
  }

  /** Lookup in one table: only the bucket selected by hash and mask is searched. */
  function LookupIn<K(==), V>(b: Buckets<K, V>, hash: K -> nat, key: K): (r: Option<Entry<K, V>>)
    ensures r.Some? ==> r.value.key == key
  {
    if b == [] then None else Find(b[Slot(hash(key), |b|)], key)
  }

  /** The first table is searched before the second. */
  function Lookup2<K(==), V>(b0: Buckets<K, V>, b1: Buckets<K, V>, hash: K -> nat, key: K): (r: Option<Entry<K, V>>) {
    var r := LookupIn(b0, hash, key);
    if r.Some? then r else LookupIn(b1, hash, key)
  }

  function Lookup<K(==), V>(s: State<K, V>, hash: K -> nat, key: K): (r: Option<Entry<K, V>>) {
    Lookup2(s.h0.buckets, s.h1.buckets, hash, key)
  }

  // ---------------------------------------------------------------- invariant

  ghost predicate Shape<K, V>(s: State<K, V>) {
    && (s.h0.buckets != [] ==> PowerOfTwo(|s.h0.buckets|))
    && s.h0.used == Count(s.h0.buckets)
    && s.h1.used == Count(s.h1.buckets)
    && (Rehashing(s) ==>
          && 0 <= s.rehashidx <= |s.h0.buckets|
          && s.h0.buckets != []
          && s.h1.buckets != [] && PowerOfTwo(|s.h1.buckets|)
          && forall i :: 0 <= i < s.rehashidx ==> s.h0.buckets[i] == [])
    && (!Rehashing(s) ==> s.h1 == Table([], 0))
  }

  /** No key is in both tables. */
  ghost predicate Apart<K(!new), V>(b0: Buckets<K, V>, b1: Buckets<K, V>, hash: K -> nat) {
    forall key :: LookupIn(b0, hash, key).None? || LookupIn(b1, hash, key).None?
  }

  /** Every node sits where its hash says and no key occurs twice, in one table or across both. */
  ghost predicate Wf<K(!new), V>(s: State<K, V>, hash: K -> nat) {
    && Shape(s)
    && WellFormed(s.h0.buckets, hash)
    && WellFormed(s.h1.buckets, hash)
    && Apart(s.h0.buckets, s.h1.buckets, hash)
  }

  ghost predicate Represents<K(!new), V>(s: State<K, V>, hash: K -> nat, m: map<K, V>) {
    && (forall key :: key in m <==> Lookup(s, hash, key).Some?)
    && (forall key :: key in m ==> Lookup(s, hash, key).value.val == m[key])
  }

  /** The dictionary in state `s` is the finite map `m`. */
  ghost predicate Inv<K(!new), V>(s: State<K, V>, hash: K -> nat, m: map<K, V>) {
    && Wf(s, hash)
    && Represents(s, hash, m)
    && |m| == s.h0.used + s.h1.used
  }

  // ---------------------------------------------------------------- operations on values

  function Push<K, V>(b: Buckets<K, V>, hash: K -> nat, e: Entry<K, V>): (r: Buckets<K, V>)
    requires b != []
    ensures |r| == |b|
  {
    var i := Slot(hash(e.key), |b|);
    b[i := [e] + b[i]]
  }

  /** Moving a whole chain, head first, each node becoming the head of its new bucket. */
  function MoveChain<K, V>(c: Chain<K, V>, b: Buckets<K, V>, hash: K -> nat): (r: Buckets<K, V>)
    requires b != []
    ensures |r| == |b|
    decreases |c|
  {
    if c == [] then b else MoveChain(c[1..], Push(b, hash, c[0]), hash)
  }

  function FirstNonEmpty<K, V>(b: Buckets<K, V>, from: nat): (i: nat)
    requires from <= |b|
    ensures from <= i <= |b|
    ensures forall j :: from <= j < i ==> b[j] == []
    ensures i < |b| ==> b[i] != []
    decreases |b| - from
  {
    if from == |b| || b[from] != [] then from else FirstNonEmpty(b, from + 1)
  }

  /** One iteration of the `dictRehash` loop. */
  function RehashOnce<K, V>(s: State<K, V>, hash: K -> nat): State<K, V>
    requires Rehashing(s) && 0 <= s.rehashidx <= |s.h0.buckets| && s.h1.buckets != []
    requires s.h0.used == Count(s.h0.buckets)
    requires forall i :: 0 <= i < s.rehashidx ==> s.h0.buckets[i] == []
  {
    if s.h0.used == 0 then
      State(s.h1, Table([], 0), -1, s.iterators)
    else
      var i := FirstNonEmpty(s.h0.buckets, s.rehashidx);
      NonEmptyExists(s.h0.buckets, i);
      var c := s.h0.buckets[i];
      CountUpdate(s.h0.buckets, i, []);
      State(Table(s.h0.buckets[i := []], s.h0.used - |c|),
            Table(MoveChain(c, s.h1.buckets, hash), s.h1.used + |c|), i + 1, s.iterators)
  }

  function RehashStep<K, V>(s: State<K, V>, hash: K -> nat): State<K, V>
    requires Shape(s)
  {
    if Rehashing(s) && s.iterators == 0 then RehashOnce(s, hash) else s
  }

  function NextPowerFrom(size: nat, i: nat): (p: nat)
    requires i > 0
    ensures p >= size
    decreases size - i
  {
    if i >= size then i else NextPowerFrom(size, 2 * i)
  }

  function NextPower(size: nat): nat {
    if size >= LONG_MAX then LONG_MAX else NextPowerFrom(size, INITIAL_SIZE)
  }

  function EmptyBuckets<K, V>(n: nat): (b: Buckets<K, V>)
    ensures |b| == n && forall i :: 0 <= i < n ==> b[i] == []
  {
    seq(n, _ => [])
  }

  /** `dictExpand`: a first table, or a second one into which rehashing starts at bucket 0. */
  function Expand<K, V>(s: State<K, V>, size: nat): (r: (State<K, V>, bool)) {
    if Rehashing(s) || s.h0.used > size then (s, false)
    else
      var n := Table(EmptyBuckets(NextPower(size)), 0);
      if s.h0.buckets == [] then (s.(h0 := n), true)
      else (s.(h1 := n, rehashidx := 0), true)
  }

  function ExpandIfNeeded<K, V>(s: State<K, V>, canResize: bool): (r: (State<K, V>, bool)) {
    if Rehashing(s) then (s, true)
    else if s.h0.buckets == [] then Expand(s, INITIAL_SIZE)
    else if s.h0.used >= |s.h0.buckets| && (canResize || s.h0.used / |s.h0.buckets| > FORCE_RESIZE_RATIO) then
      Expand(s, s.h0.used * 2)
    else (s, true)
  }

  /** An unsigned word stored in a signed 32-bit variable. */
  function ToInt(n: nat): (i: int)
    ensures -INT_MAX - 1 <= i <= INT_MAX
    ensures i <= n && (n <= INT_MAX ==> i == n)
  {
    var low := n % (2 * (INT_MAX + 1));
    if low <= INT_MAX then low else low - 2 * (INT_MAX + 1)
  }

  /** `dictResize`, which holds the number of nodes in an `int`. */
  function Resize<K, V>(s: State<K, V>, canResize: bool): (r: (State<K, V>, bool)) {
    if !canResize || Rehashing(s) then (s, false)
    else
      var minimal := ToInt(s.h0.used);
      Expand(s, if minimal < INITIAL_SIZE then INITIAL_SIZE else minimal)
  }

  /** Linking a new node: into the second table while one exists. */
  function Place<K, V>(s: State<K, V>, hash: K -> nat, e: Entry<K, V>): State<K, V>
    requires if Rehashing(s) then s.h1.buckets != [] else s.h0.buckets != []
  {
    if Rehashing(s) then s.(h1 := Table(Push(s.h1.buckets, hash, e), s.h1.used + 1))
    else s.(h0 := Table(Push(s.h0.buckets, hash, e), s.h0.used + 1))
  }

  /** The table states a new node can be linked into: some table is allocated. */
  predicate Allocated<K, V>(s: State<K, V>) {
    if Rehashing(s) then s.h1.buckets != [] else s.h0.buckets != []
  }

  /** The node is linked unless its key is there. */
  function Inserted<K(==), V>(s: State<K, V>, hash: K -> nat, e: Entry<K, V>): (r: (State<K, V>, bool))
    requires Allocated(s)
  {
    if Lookup(s, hash, e.key).None? then (Place(s, hash, e), true) else (s, false)
  }

  /** `dictAdd`: false when the key is present. */
  function Add<K(==), V>(s: State<K, V>, hash: K -> nat, canResize: bool, e: Entry<K, V>): (r: (State<K, V>, bool))
    requires Shape(s)
  {
    var (s2, ok) := ExpandIfNeeded(RehashStep(s, hash), canResize);
    if ok && Allocated(s2) then Inserted(s2, hash, e) else (s2, false)
  }

  function RemoveIn<K(==), V>(b: Buckets<K, V>, hash: K -> nat, key: K): (r: Buckets<K, V>)
    requires b != []
    ensures |r| == |b|
  {
    var i := Slot(hash(key), |b|);
    b[i := Remove(b[i], key)]
  }

  /** The search of `dictGenericDelete` over both tables, and the unlinking of what it finds. */
  function Unlinked<K(==), V>(s: State<K, V>, hash: K -> nat, key: K): (r: (State<K, V>, bool))
  {
    if LookupIn(s.h0.buckets, hash, key).Some? && s.h0.used > 0 then
      (s.(h0 := Table(RemoveIn(s.h0.buckets, hash, key), s.h0.used - 1)), true)
    else if LookupIn(s.h1.buckets, hash, key).Some? && s.h1.used > 0 then
      (s.(h1 := Table(RemoveIn(s.h1.buckets, hash, key), s.h1.used - 1)), true)
    else (s, false)
  }

  function Delete<K(==), V>(s: State<K, V>, hash: K -> nat, key: K): (r: (State<K, V>, bool))
    requires Shape(s)
  {
    if s.h0.buckets == [] then (s, false) else Unlinked(RehashStep(s, hash), hash, key)
  }

  /** Overwriting the value of the node that holds the key; the node stays where it is. */
  function SetVal<K(==), V>(c: Chain<K, V>, key: K, val: V): (r: Chain<K, V>)
    ensures |r| == |c|
  {
    if c == [] then []
    else if c[0].key == key then [c[0].(val := val)] + c[1..]
    else [c[0]] + SetVal(c[1..], key, val)
  }

  /** Position `i` is where a walk along the chain meets the key. */
  ghost predicate IsFirst<K, V>(c: Chain<K, V>, i: nat, key: K) {
    i < |c| && c[i].key == key && forall j :: 0 <= j < i ==> c[j].key != key
  }

  function SetIn<K(==), V>(b: Buckets<K, V>, hash: K -> nat, key: K, val: V): (r: Buckets<K, V>)
    requires b != []
    ensures |r| == |b|
  {
    var i := Slot(hash(key), |b|);
    b[i := SetVal(b[i], key, val)]
  }

  // ---------------------------------------------------------------- counting

  lemma {:induction false} CountUpdate<K, V>(b: Buckets<K, V>, i: nat, c: Chain<K, V>)
    requires i < |b|
    ensures Count(b[i := c]) == Count(b) - |b[i]| + |c|
  {
    if i == 0 {
      assert b[i := c][1..] == b[1..];
    } else {
      assert b[i := c][1..] == b[1..][i - 1 := c];
      CountUpdate(b[1..], i - 1, c);
    }
  }

  lemma {:induction false} NonEmptyExists<K, V>(b: Buckets<K, V>, from: nat)
    requires from <= |b|
    requires forall i :: 0 <= i < from ==> b[i] == []
    requires Count(b) > 0
    ensures from < |b|
  {
    if from == |b| {
      AllEmptyCount(b);
    }
  }

  lemma {:induction false} AllEmptyCount<K, V>(b: Buckets<K, V>)
    ensures Count(b) == 0 <==> forall i :: 0 <= i < |b| ==> b[i] == []
  {
    if b != [] {
      AllEmptyCount(b[1..]);
      assert (forall i :: 0 <= i < |b| ==> b[i] == []) <==>
             b[0] == [] && (forall i :: 0 <= i < |b[1..]| ==> b[1..][i] == []) by {
        if b[0] == [] && (forall i :: 0 <= i < |b[1..]| ==> b[1..][i] == []) {
          forall i | 0 <= i < |b| ensures b[i] == [] {
            if i > 0 { assert b[i] == b[1..][i - 1]; }
          }
        }
      }
    }
  }
}
