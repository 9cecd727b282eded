/** The output side of `networking.c`: a static buffer followed by a list of reply objects, lengths
    that are filled in later, and writes that take only a part. Characters stand for bytes. */
module ReplyStream {
  import opened Resp

  const REPLY_CHUNK_BYTES: nat := 16384
  const MAX_WRITE_PER_EVENT: nat := 65536

  /** A string object. A length that is not known yet is an object without a string. */
  class Object {
    var ptr: Option<string>
    var refcount: nat

    constructor (ptr: Option<string>)
      ensures this.ptr == ptr && refcount == 1
    {
      this.ptr, refcount := ptr, 1;
    }
  }

  // ---------------------------------------------------------------- streams with holes

  /** One byte of the reply stream, or the place of a length that is not known yet. */
  datatype Item = Byte(b: char) | Hole(node: Object)

  function Bytes(s: string): (r: seq<Item>)
    ensures |r| == |s| && forall i :: 0 <= i < |s| ==> r[i] == Byte(s[i])
  {
    seq(|s|, i requires 0 <= i < |s| => Byte(s[i]))
  }

  function FillOne(x: Item, node: Object, b: string): seq<Item> {
    if x == Hole(node) then Bytes(b) else [x]
  }

  function Sum(s: seq<nat>): nat { if s == [] then 0 else Sum(s[..|s| - 1]) + s[|s| - 1] }

  lemma SumNone()
    ensures Sum([]) == 0
  {
  }

  /** The sizes of the writes: positive, and no more than the socket's answers. */
  ghost predicate Taken(writes: seq<nat>, accept: seq<int>) {
    |writes| <= |accept| && forall i :: 0 <= i < |writes| ==> 0 < writes[i] <= accept[i]
  }

  /** The socket has no positive answer number `k`. */
  predicate Blocked(accept: seq<int>, k: nat) { k >= |accept| || accept[k] <= 0 }

  lemma {:induction false} SumAtLeast(s: seq<nat>)
    requires forall i :: 0 <= i < |s| ==> s[i] > 0
    ensures Sum(s) >= |s|
  {
    if s != [] { SumAtLeast(s[..|s| - 1]); }
  }

  lemma SumSnoc(s: seq<nat>, n: nat)
    ensures Sum(s + [n]) == Sum(s) + n
  {
    assert (s + [n])[..|s|] == s;
  }

  /** The stream with `b` in the place of a hole. */
  function Fill(s: seq<Item>, node: Object, b: string): seq<Item> {
    if s == [] then []
    else Fill(s[..|s| - 1], node, b) + FillOne(s[|s| - 1], node, b)
  }

  ghost predicate NoHole(s: seq<Item>, node: Object) { Hole(node) !in s }

  lemma Regroup<T>(a: seq<T>, b: seq<T>, c: seq<T>)
    ensures a + (b + c) == (a + b) + c
  {
  }

  lemma FillSnoc(s: seq<Item>, x: Item, node: Object, b: string)
    ensures Fill(s + [x], node, b) == Fill(s, node, b) + FillOne(x, node, b)
  {
    assert (s + [x])[..|s|] == s;
  }

  lemma {:induction false} FillConcat(s: seq<Item>, t: seq<Item>, node: Object, b: string)
    ensures Fill(s + t, node, b) == Fill(s, node, b) + Fill(t, node, b)
  {
    if t == [] {
      assert s + t == s;
    } else {
      hide Fill, FillOne;
      var f, x := t[..|t| - 1], t[|t| - 1];
      FillConcat(s, f, node, b);
      FillSnoc(f, x, node, b);
      FillSnoc(s + f, x, node, b);
      Regroup(Fill(s, node, b), Fill(f, node, b), FillOne(x, node, b));
      assert t == f + [x];
      Regroup(s, f, [x]);
    }
  }

  lemma {:induction false} FillNothing(s: seq<Item>, node: Object, b: string)
    requires NoHole(s, node)
    ensures Fill(s, node, b) == s
  {
    if s != [] {
      FillNothing(s[..|s| - 1], node, b);
    }
  }

  lemma FillHole(node: Object, b: string)
    ensures Fill([Hole(node)], node, b) == Bytes(b)
  {
    assert [Hole(node)][..0] == [];
  }

  lemma BytesConcat(s: string, t: string)
    ensures Bytes(s + t) == Bytes(s) + Bytes(t)
  {
  }

  // ---------------------------------------------------------------- the reply list

  ghost function One(o: Object): (r: seq<Item>)
    reads o`ptr
  {
    if o.ptr.None? then [Hole(o)] else Bytes(o.ptr.value)
  }

  /** What a list of objects will put on the wire. */
  ghost function Flat(l: seq<Object>): seq<Item>
    reads l`ptr
  {
    if l == [] then [] else Flat(l[..|l| - 1]) + One(l[|l| - 1])
  }

  lemma SplitAt<T>(l: seq<T>, i: nat)
    requires i < |l|
    ensures l == (l[..i] + [l[i]]) + l[i + 1..]
  {
  }

  lemma FlatSnoc(l: seq<Object>, o: Object)
    ensures Flat(l + [o]) == Flat(l) + One(o)
  {
    assert (l + [o])[..|l|] == l;
  }

  lemma FlatNone(l: seq<Object>)
    ensures Flat(l + []) == Flat(l) + Flat([])
  {
    assert l + [] == l;
  }

  lemma {:induction false} FlatConcat(l: seq<Object>, m: seq<Object>)
    ensures Flat(l + m) == Flat(l) + Flat(m)
  {
    hide Flat, One;
    if m == [] {
      FlatNone(l);
    } else {
      var f, o := m[..|m| - 1], m[|m| - 1];
      FlatConcat(l, f);
      FlatSnoc(f, o);
      FlatSnoc(l + f, o);
      Regroup(Flat(l), Flat(f), One(o));
      assert m == f + [o];
      Regroup(l, f, [o]);
    }
  }

  lemma FlatSplit(l: seq<Object>, i: nat)
    requires i < |l|
    ensures Flat(l) == Flat(l[..i]) + One(l[i]) + Flat(l[i + 1..])
  {
    hide Flat, One;
    SplitAt(l, i);
    FlatConcat(l[..i] + [l[i]], l[i + 1..]);
    FlatSnoc(l[..i], l[i]);
  }

  /** Holes of a list come from its own objects. */
  lemma {:induction false} FlatHoles(l: seq<Object>, node: Object)
    requires node !in l || node.ptr.Some?
    ensures NoHole(Flat(l), node)
  {
    if l != [] {
      FlatHoles(l[..|l| - 1], node);
    }
  }

  lemma FlatLast(l: seq<Object>)
    requires l != []
    ensures Flat(l) == Flat(l[..|l| - 1]) + One(l[|l| - 1])
  {
  }

  /** How often the list refers to an object. */
  ghost function Count(l: seq<Object>, o: Object): (n: nat) {
    if l == [] then 0 else Count(l[..|l| - 1], o) + if l[|l| - 1] == o then 1 else 0
  }

  lemma CountLast(l: seq<Object>, o: Object)
    requires l != []
    ensures Count(l, o) == Count(l[..|l| - 1], o) + if l[|l| - 1] == o then 1 else 0
  {
  }

  lemma {:induction false} CountIn(l: seq<Object>, o: Object)
    ensures Count(l, o) > 0 <==> o in l
  {
    if l != [] {
      CountIn(l[..|l| - 1], o);
      assert l == l[..|l| - 1] + [l[|l| - 1]];
    }
  }

  lemma {:induction false} CountConcat(l: seq<Object>, m: seq<Object>, o: Object)
    ensures Count(l + m, o) == Count(l, o) + Count(m, o)
  {
    if m == [] {
      assert l + m == l;
    } else {
      assert (l + m)[..|l + m| - 1] == l + m[..|m| - 1];
      CountConcat(l, m[..|m| - 1], o);
    }
  }

  /** The list without its element `i`. */
  function Without(l: seq<Object>, i: nat): seq<Object>
    requires i < |l|
  {
    l[..i] + l[i + 1..]
  }

  lemma CountWithout(l: seq<Object>, i: nat, o: Object)
    requires i < |l|
    ensures Count(l, o) == Count(Without(l, i), o) + if l[i] == o then 1 else 0
  {
    CountConcat(l[..i], l[i..], o);
    assert l == l[..i] + l[i..];
    assert l[i..] == [l[i]] + l[i + 1..];
    CountConcat([l[i]], l[i + 1..], o);
    CountConcat(l[..i], l[i + 1..], o);
    CountLast([l[i]], o);
    assert [l[i]][..0] == [];
  }

  lemma OnceAt(l: seq<Object>, i: nat, o: Object)
    requires i < |l| && l[i] == o && Count(l, o) <= 1
    ensures o !in l[..i] && o !in l[i + 1..] && Count(l, o) == 1
  {
    CountWithout(l, i, o);
    CountIn(Without(l, i), o);
  }

  lemma OnlyPlace(l: seq<Object>, i: nat, o: Object)
    requires i < |l| && l[i] == o && Count(l, o) <= 1
    ensures forall j :: 0 <= j < |l| && l[j] == o ==> j == i
  {
    OnceAt(l, i, o);
    Elsewhere(l, i);
  }

  lemma Elsewhere(l: seq<Object>, i: nat)
    requires i < |l|
    ensures forall j :: 0 <= j < |l| && j != i ==> l[j] in l[..i] || l[j] in l[i + 1..]
  {
    forall j | 0 <= j < |l| && j != i ensures l[j] in l[..i] || l[j] in l[i + 1..] {
      if j < i { assert l[..i][j] == l[j]; } else { assert l[i + 1..][j - i - 1] == l[j]; }
    }
  }

  // ---------------------------------------------------------------- the client

  class Client {
    const buf: array<char>
    var bufpos: nat
    var sentlen: nat
    var reply: seq<Object>
    var closing: bool
    /** What the socket has taken, and all replies so far, in call order. */
    ghost var sent: string
    ghost var stream: seq<Item>

    constructor ()
      ensures Ok() && fresh(buf) && sent == "" && stream == [] && !closing && reply == []
    {
      buf := new char[REPLY_CHUNK_BYTES];
      bufpos, sentlen, reply, closing, sent, stream := 0, 0, [], false, "", [];
    }

    /** Every object has a reference for each place it has in the list; a length to be filled in is
        owned by the list alone. */
    ghost predicate Counted()
      reads this`reply, reply
    {
      && (forall o :: o in reply ==> Count(reply, o) <= o.refcount)
      && (forall o :: o in reply && o.ptr.None? ==> o.refcount == 1)
    }

    /** `sentlen` counts inside the buffer, or else inside the first object. */
    ghost predicate Shape()
      reads this`bufpos, this`sentlen, this`reply, reply
    {
      && buf.Length == REPLY_CHUNK_BYTES && bufpos <= buf.Length && Counted()
      && (bufpos > 0 ==> sentlen < bufpos)
      && (bufpos == 0 && sentlen > 0 ==> reply != [] && reply[0].ptr.Some? && sentlen < |reply[0].ptr.value|)
    }

    /** What is left to send when `f` is what the list holds: the rest of the buffer, then the list;
        or the list without what was sent of its first object. */
    ghost function Remaining(f: seq<Item>): seq<Item>
      reads this`bufpos, this`sentlen, buf
      requires if bufpos > 0 then sentlen <= bufpos <= buf.Length else sentlen <= |f|
    {
      if bufpos > 0 then Bytes(buf[sentlen..bufpos]) + f else f[sentlen..]
    }

    ghost function Unsent(): seq<Item>
      reads this`bufpos, this`sentlen, this`reply, buf, reply
      requires Shape()
    {
      SentWithinFirst();
      Remaining(Flat(reply))
    }

    lemma RemainingGrows(f: seq<Item>, x: seq<Item>)
      requires if bufpos > 0 then sentlen <= bufpos <= buf.Length else sentlen <= |f|
      ensures Remaining(f + x) == Remaining(f) + x
    {
      hide Bytes;
      if bufpos == 0 {
        assert (f + x)[sentlen..] == f[sentlen..] + x;
      } else {
        assert Bytes(buf[sentlen..bufpos]) + (f + x) == Bytes(buf[sentlen..bufpos]) + f + x;
      }
    }

    lemma SentWithinFirst()
      requires Shape()
      ensures bufpos == 0 ==> sentlen <= |Flat(reply)|
    {
      if bufpos == 0 && sentlen > 0 { FlatSplit(reply, 0); }
    }

    /** Bytes sent, then bytes not sent, are all replies in call order. */
    ghost predicate Ok()
      reads this, buf, reply
    {
      Shape() && Bytes(sent) + Unsent() == stream
    }

    /** References to an object that are not places in the list. */
    ghost function Others(o: Object): int
      reads this`reply, o`refcount
    {
      o.refcount - Count(reply, o)
    }

    // -------------------------------------------------------------- the list

    /** An object the list alone refers to is there once. */
    lemma TailAlone()
      requires Shape() && reply != [] && reply[|reply| - 1].refcount == 1
      ensures reply[|reply| - 1] !in reply[..|reply| - 1]
    {
      var n := |reply| - 1;
      CountLast(reply, reply[n]);
      CountIn(reply[..n], reply[n]);
    }

    /** `dupLastObjectIfNeeded`: the last object becomes one that the list owns alone. */
    method DupLastObjectIfNeeded()
      requires Shape() && reply != [] && reply[|reply| - 1].ptr.Some?
      modifies this`reply, reply`refcount
      ensures Shape() && |reply| == old(|reply|)
      ensures reply[..|reply| - 1] == old(reply[..|reply| - 1])
      ensures reply[|reply| - 1].refcount == 1 && reply[|reply| - 1].ptr == old(reply[|reply| - 1].ptr)
      ensures reply == old(reply) || fresh(reply[|reply| - 1])
      ensures old(reply[|reply| - 1].refcount) != 1 ==> fresh(reply[|reply| - 1])
      ensures forall o :: o in old(reply) ==> Others(o) == old(Others(o))
      ensures forall o :: o in reply ==> o in old(reply) || fresh(o)
    {
      hide Count;
      var n := |reply| - 1;
      var cur := reply[n];
      CountIn(reply, cur);
      if cur.refcount > 1 {
        ghost var l, before := reply[..n], reply;
        assert before == l + [cur];
        var dup := new Object(cur.ptr);
        cur.refcount := cur.refcount - 1;
        reply := reply[..n] + [dup];
        assert reply[..n] == l;
        forall o | o in reply ensures Count(reply, o) <= o.refcount {
          CountLast(before, o);
          CountLast(reply, o);
          CountIn(l, o);
          assert o in l || o == dup;
        }
        forall o | o in before ensures Others(o) == old(Others(o)) {
          CountLast(before, o);
          CountLast(reply, o);
        }
        assert reply[0] == if n == 0 then dup else before[0];
      }
    }

    /** The string of the last object, which the list owns alone, grows. */
    method GrowTail(tail: Object, s: string)
      requires Shape() && reply != [] && tail == reply[|reply| - 1] && tail.ptr.Some? && tail.refcount == 1
      modifies tail`ptr
      ensures Shape() && Flat(reply) == old(Flat(reply)) + Bytes(s)
    {
      hide Count, Flat, Bytes;
      FlatLast(reply);
      TailAlone();
      BytesConcat(tail.ptr.value, s);
      tail.ptr := Some(tail.ptr.value + s);
      FlatLast(reply);
    }

    /** The common part of `_addReplyObjectToList`, `_addReplySdsToList` and `_addReplyStringToList`:
        append to the last object when it has room. Objects that others refer to keep their strings. */
    method AppendToTail(s: string) returns (done: bool)
      requires Shape()
      modifies this`reply, reply`refcount, (set x | x in reply && x.refcount == 1)`ptr
      ensures Shape()
      ensures !done ==> reply == old(reply) && Flat(reply) == old(Flat(reply))
      ensures done ==> reply != [] && Flat(reply) == old(Flat(reply)) + Bytes(s)
      ensures forall o :: o in old(reply) ==> Others(o) == old(Others(o))
      ensures forall o :: o in reply ==> o in old(reply) || fresh(o)
      ensures done <==> old(reply != [] && reply[|reply| - 1].ptr.Some?
        && |reply[|reply| - 1].ptr.value| + |s| <= REPLY_CHUNK_BYTES)
    {
      hide Count, Flat, Bytes;
      if |reply| == 0 { return false; }
      var tail := reply[|reply| - 1];
      if tail.ptr.None? || |tail.ptr.value| + |s| > REPLY_CHUNK_BYTES { return false; }
      FlatLast(reply);
      DupLastObjectIfNeeded();
      FlatLast(reply);
      GrowTail(reply[|reply| - 1], s);
      return true;
    }

    /** A new object at the end of the list. */
    method PushBack(o: Object)
      requires Shape() && Count(reply, o) < o.refcount && (o.ptr.None? ==> o.refcount == 1)
      requires reply == [] && bufpos == 0 ==> sentlen == 0
      modifies this`reply
      ensures Shape() && reply == old(reply) + [o] && Flat(reply) == old(Flat(reply)) + One(o)
      ensures forall x :: x in reply && x != o ==> Others(x) == old(Others(x))
      ensures Others(o) == old(Others(o)) - 1
    {
      hide Count, Flat;
      ghost var before := reply;
      reply := reply + [o];
      assert reply[..|reply| - 1] == before;
      FlatLast(reply);
      forall x ensures Count(reply, x) == Count(before, x) + if x == o then 1 else 0 { CountLast(reply, x); }
    }

    // -------------------------------------------------------------- adding replies

    /** Copying into the free part of the buffer. */
    method CopyIn(s: string)
      requires bufpos + |s| <= buf.Length
      modifies buf
      ensures buf[..bufpos] == old(buf[..bufpos]) && buf[bufpos..bufpos + |s|] == s
    {
      var i := 0;
      while i < |s|
        invariant i <= |s|
        invariant buf[..bufpos] == old(buf[..bufpos]) && buf[bufpos..bufpos + i] == s[..i]
      {
        buf[bufpos + i] := s[i];
        i := i + 1;
      }
    }

    /** The buffer takes a string. */
    method GrowBuffer(s: string)
      requires Shape() && reply == [] && bufpos + |s| <= buf.Length
      modifies this`bufpos, buf
      ensures Shape() && Unsent() == old(Unsent()) + Bytes(s)
    {
      hide Count, Bytes, Flat, Counted;
      ghost var before := buf[sentlen..bufpos];
      CopyIn(s);
      assert buf[sentlen..bufpos] == buf[..bufpos][sentlen..] == before;
      assert buf[sentlen..bufpos + |s|] == before + s;
      BytesConcat(before, s);
      BytesNone();
      FlatEmpty();
      bufpos := bufpos + |s|;
    }

    /** `_addReplyToBuffer`. */
    method AddReplyToBuffer(s: string) returns (ok: bool)
      requires Ok()
      modifies this`bufpos, this`stream, buf
      ensures Ok() && (ok ==> stream == old(stream) + if closing then [] else Bytes(s))
      ensures ok <==> closing || (reply == [] && |s| <= REPLY_CHUNK_BYTES - old(bufpos))
      ensures !ok ==> stream == old(stream)
    {
      hide Count, Bytes, Flat, Counted, Unsent, Remaining;
      var available := buf.Length - bufpos;
      if closing { return true; }
      if |reply| > 0 { return false; }
      if |s| > available { return false; }
      GrowBuffer(s);
      stream := stream + Bytes(s);
      return true;
    }

    lemma BytesNone()
      ensures Bytes("") == []
    {
    }

    /** An object that someone else refers to is not one the list may change. */
    lemma NotAlone(o: Object)
      requires Others(o) > 0
      ensures !(o in reply && o.refcount == 1)
    {
      CountIn(reply, o);
    }

    lemma Absent(o: Object)
      ensures o !in reply ==> Count(reply, o) == 0 && Others(o) == o.refcount
    {
      CountIn(reply, o);
    }

    /** A shared object at the end of the list, with one more reference. */
    method PushShared(o: Object)
      requires Shape() && o.ptr.Some? && Others(o) > 0 && (reply == [] && bufpos == 0 ==> sentlen == 0)
      modifies this`reply, o`refcount
      ensures Shape() && reply == old(reply) + [o] && Flat(reply) == old(Flat(reply)) + Bytes(o.ptr.value)
      ensures Others(o) == old(Others(o)) && forall x :: x in old(reply) ==> Others(x) == old(Others(x))
    {
      hide Count, Flat, Bytes;
      o.refcount := o.refcount + 1;
      PushBack(o);
    }

    /** The list part of an addition: append to the last object, or share the object. */
    method AppendShared(o: Object)
      requires Shape() && o.ptr.Some? && Others(o) > 0
      modifies this`reply, reply`refcount, o`refcount, (set x | x in reply && x.refcount == 1)`ptr
      ensures Shape() && Flat(reply) == old(Flat(reply)) + Bytes(old(o.ptr.value))
      ensures o.ptr == old(o.ptr) && Others(o) == old(Others(o))
      ensures forall x :: x in old(reply) ==> Others(x) == old(Others(x))
    {
      hide Count, Flat, Bytes, Others;
      NotAlone(o);
      Absent(o);
      var done := AppendToTail(o.ptr.value);
      Absent(o);
      if !done { PushShared(o); }
    }

    /** `_addReplyObjectToList`. The caller holds a reference of its own, and keeps it. */
    method AddReplyObjectToList(o: Object)
      requires Ok() && o.ptr.Some? && Others(o) > 0
      modifies this`reply, this`stream, reply`refcount, o`refcount, (set x | x in reply && x.refcount == 1)`ptr
      ensures Ok() && stream == old(stream) + if closing then [] else Bytes(old(o.ptr.value))
      ensures o.ptr == old(o.ptr) && Others(o) == old(Others(o))
      ensures forall x :: x in old(reply) ==> Others(x) == old(Others(x))
    {
      hide Count, Flat, Bytes, Remaining, Others;
      if closing { return; }
      SentWithinFirst();
      RemainingGrows(Flat(reply), Bytes(o.ptr.value));
      AppendShared(o);
      stream := stream + Bytes(o.ptr.value);
    }

    /** The list part of an addition that is a string of its own. */
    method AppendString(s: string)
      requires Shape()
      modifies this`reply, reply`refcount, (set x | x in reply && x.refcount == 1)`ptr
      ensures Shape() && Flat(reply) == old(Flat(reply)) + Bytes(s)
      ensures forall x :: x in old(reply) ==> Others(x) == old(Others(x))
    {
      hide Count, Flat, Bytes;
      var done := AppendToTail(s);
      if !done {
        var o := new Object(Some(s));
        Absent(o);
        PushBack(o);
      }
    }

    /** `_addReplySdsToList` and `_addReplyStringToList`. */
    method AddReplyStringToList(s: string)
      requires Ok()
      modifies this`reply, this`stream, reply`refcount, (set x | x in reply && x.refcount == 1)`ptr
      ensures Ok() && stream == old(stream) + if closing then [] else Bytes(s)
      ensures forall x :: x in old(reply) ==> Others(x) == old(Others(x))
    {
      hide Count, Flat, Bytes, Remaining, Others;
      if closing { return; }
      SentWithinFirst();
      RemainingGrows(Flat(reply), Bytes(s));
      AppendString(s);
      stream := stream + Bytes(s);
    }

    /** `addReply` on a string object; `ready` is what `prepareClientToWrite` says. */
    method AddReply(o: Object, ready: bool)
      requires Ok() && o.ptr.Some? && Others(o) > 0
      modifies this`reply, this`bufpos, this`stream, buf, reply`refcount, o`refcount,
        (set x | x in reply && x.refcount == 1)`ptr
      ensures Ok() && stream == old(stream) + if ready && !closing then Bytes(old(o.ptr.value)) else []
      ensures o.ptr == old(o.ptr) && Others(o) == old(Others(o))
      ensures forall x :: x in old(reply) ==> Others(x) == old(Others(x))
    {
      hide Count, Bytes, Others, Unsent, Shape;
      if !ready { return; }
      var ok := AddReplyToBuffer(o.ptr.value);
      if !ok { AddReplyObjectToList(o); }
    }

    /** `addReplySds` and `addReplyString`. */
    method AddReplyString(s: string, ready: bool)
      requires Ok()
      modifies this`reply, this`bufpos, this`stream, buf, reply`refcount, (set x | x in reply && x.refcount == 1)`ptr
      ensures Ok() && stream == old(stream) + if ready && !closing then Bytes(s) else []
      ensures forall x :: x in old(reply) ==> Others(x) == old(Others(x))
    {
      hide Count, Bytes, Others, Unsent, Shape;
      if !ready { return; }
      var ok := AddReplyToBuffer(s);
      if !ok { AddReplyStringToList(s); }
    }

    // -------------------------------------------------------------- deferred lengths

    /** `addDeferredMultiBulkLength`: a hole at the end of the stream. */
    method AddDeferredMultiBulkLength(ready: bool) returns (node: Object?)
      requires Ok()
      modifies this`reply, this`stream
      ensures Ok() && (node == null <==> !ready)
      ensures node == null ==> stream == old(stream) && reply == old(reply)
      ensures node != null ==>
                fresh(node) && reply == old(reply) + [node] && node.ptr.None?
                && stream == old(stream) + [Hole(node)]
    {
      hide Count, Flat, Bytes, Remaining, Others;
      if !ready { return null; }
      node := new Object(None);
      Absent(node);
      SentWithinFirst();
      RemainingGrows(Flat(reply), [Hole(node)]);
      PushBack(node);
      stream := stream + [Hole(node)];
    }

    /** The length is written into its object. */
    method FillNode(node: Object, i: nat, text: string)
      requires Shape() && i < |reply| && reply[i] == node && node.ptr.None?
      modifies node`ptr
      ensures Shape() && node.ptr == Some(text) && Flat(reply) == Fill(old(Flat(reply)), node, text)
    {
      hide Count, Flat, Bytes, Fill;
      OnceAt(reply, i, node);
      FlatSplit(reply, i);
      ghost var a, b := Flat(reply[..i]), Flat(reply[i + 1..]);
      FlatHoles(reply[..i], node);
      FlatHoles(reply[i + 1..], node);
      FillNothing(a, node, text);
      FillNothing(b, node, text);
      FillHole(node, text);
      FillConcat(a + [Hole(node)], b, node, text);
      FillConcat(a, [Hole(node)], node, text);
      node.ptr := Some(text);
      FlatSplit(reply, i);
    }

    /** Gluing an object the list owns alone to the next one: the next leaves the list. */
    method Glue(node: Object, next: Object, i: nat)
      requires Shape() && i + 1 < |reply| && reply[i] == node && reply[i + 1] == next
      requires node.refcount == 1 && node.ptr.Some? && next.ptr.Some?
      modifies this`reply, node`ptr, next`refcount
      ensures Shape() && Flat(reply) == old(Flat(reply)) && reply == Without(old(reply), i + 1)
      ensures node.ptr == Some(old(node.ptr.value + next.ptr.value))
      ensures forall x :: x in old(reply) ==> Others(x) == old(Others(x))
    {
      hide Count, Flat, Bytes, Without;
      ghost var l, r := reply[..i], reply[i + 2..];
      OnceAt(reply, i, node);
      FlatSplit(reply, i);
      FlatSplit(reply[i + 1..], 0);
      assert reply[i + 1..][..0] == [] && reply[i + 1..][1..] == r && reply[i + 1..][0] == next;
      assert next in reply[i + 1..];
      BytesConcat(node.ptr.value, next.ptr.value);
      FlatEmpty();
      DropNext(node, next, i);
      node.ptr := Some(node.ptr.value + next.ptr.value);
      FlatSplit(reply, i);
    }

    lemma FlatEmpty()
      ensures Flat([]) == []
    {
    }

    /** `listDelNode` on the object behind `node`. */
    method DropNext(node: Object, next: Object, i: nat)
      requires Shape() && i + 1 < |reply| && reply[i] == node && reply[i + 1] == next
      requires node.refcount == 1 && next.ptr.Some? && node != next
      modifies this`reply, next`refcount
      ensures Shape() && |reply| == old(|reply|) - 1 && reply == Without(old(reply), i + 1)
        && reply[..i] == old(reply[..i]) && reply[i] == node
      ensures reply[i + 1..] == old(reply[i + 2..])
      ensures forall x :: x in old(reply) ==> Others(x) == old(Others(x))
    {
      hide Count;
      ghost var before := reply;
      assert next in before;
      forall x ensures Count(before, x) == Count(Without(before, i + 1), x) + if x == next then 1 else 0 {
        CountWithout(before, i + 1, x);
      }
      CountIn(before, next);
      next.refcount := next.refcount - 1;
      reply := reply[..i + 1] + reply[i + 2..];
      assert reply == Without(before, i + 1);
      assert forall x :: x in reply ==> x in before;
    }

    /** Filling a hole of the list fills it in what remains to be sent: it is behind what was sent. */
    lemma RemainingFilled(f: seq<Item>, node: Object, b: string)
      requires if bufpos > 0 then sentlen <= bufpos <= buf.Length else sentlen <= |f| && NoHole(f[..sentlen], node)
      ensures if bufpos > 0 then sentlen <= bufpos <= buf.Length else sentlen <= |Fill(f, node, b)|
      ensures Remaining(Fill(f, node, b)) == Fill(Remaining(f), node, b)
    {
      hide Fill, Bytes;
      if bufpos > 0 {
        ghost var text := buf[sentlen..bufpos];
        FillConcat(Bytes(text), f, node, b);
        BytesHoles(text, node);
        FillNothing(Bytes(text), node, b);
      } else {
        FillConcat(f[..sentlen], f[sentlen..], node, b);
        FillNothing(f[..sentlen], node, b);
        assert f == f[..sentlen] + f[sentlen..];
      }
    }

    lemma BytesHoles(s: string, node: Object)
      ensures NoHole(Bytes(s), node)
    {
    }

    /** What was sent of the first object are bytes. */
    lemma NoHoleSent(node: Object)
      requires Shape()
      ensures bufpos == 0 ==> sentlen <= |Flat(reply)| && NoHole(Flat(reply)[..sentlen], node)
    {
      hide Count, Flat;
      if bufpos == 0 && sentlen > 0 {
        FlatSplit(reply, 0);
        assert reply[..0] == [];
        FlatEmpty();
        var text := reply[0].ptr.value;
        BytesHoles(text, node);
        assert Flat(reply)[..sentlen] == Bytes(text)[..sentlen];
      }
    }

    /** `setDeferredMultiBulkLength`: the length takes its place in the stream. */
    method SetDeferredMultiBulkLength(node: Object?, length: nat)
      requires Ok() && (node != null ==> node in reply && node.ptr.None?)
      modifies this`reply, this`stream, (set x | x in reply && x.ptr.None?)`ptr, reply`refcount
      ensures Ok()
      ensures stream == if node == null then old(stream) else Fill(old(stream), node, Header('*', length))
      ensures forall x :: x in old(reply) ==> Others(x) == old(Others(x))
      ensures forall i :: 0 <= i < |old(reply)| && old(reply)[i] == node ==>
                reply == if i + 1 < |old(reply)| && old(reply[i + 1].ptr).Some? then Without(old(reply), i + 1)
                         else old(reply)
    {
      hide Count, Flat, Bytes, Fill, Remaining, Header, Without;
      if node == null { return; }
      var i := PlaceOf(node);
      OnlyPlace(reply, i, node);
      var text := Header('*', length);
      NoHoleSent(node);
      RemainingFilled(Flat(reply), node, text);
      FillConcat(Bytes(sent), Unsent(), node, text);
      BytesHoles(sent, node);
      FillNothing(Bytes(sent), node, text);
      FillNode(node, i, text);
      stream := Fill(stream, node, text);
      if i + 1 < |reply| && reply[i + 1].ptr.Some? {
        Glue(node, reply[i + 1], i);
      }
    }

    /** The place of an object in the list. */
    method PlaceOf(node: Object) returns (i: nat)
      requires node in reply
      ensures i < |reply| && reply[i] == node
    {
      i := 0;
      while reply[i] != node
        invariant i < |reply| && node in reply[i..]
        decreases |reply| - i
      {
        assert reply[i..] == [reply[i]] + reply[i + 1..];
        i := i + 1;
      }
    }

    // -------------------------------------------------------------- sending

    /** `sentlen` advances inside the buffer. */
    method AdvanceInBuffer(n: nat) returns (ghost taken: string)
      requires Shape() && bufpos > 0 && 0 < n <= bufpos - sentlen
      modifies this`sentlen, this`bufpos
      ensures Shape() && |taken| == n && old(Unsent()) == Bytes(taken) + Unsent()
    {
      hide Count, Flat, Bytes, Counted;
      taken := buf[sentlen..sentlen + n];
      ghost var rest := buf[sentlen + n..bufpos];
      assert buf[sentlen..bufpos] == taken + rest;
      BytesConcat(taken, rest);
      BytesNone();
      sentlen := sentlen + n;
      if sentlen == bufpos {
        bufpos := 0;
        sentlen := 0;
        assert rest == [];
      }
    }

    /** The part of the buffer that the socket took. */
    method SentFromBuffer(n: nat)
      requires Ok() && bufpos > 0 && 0 < n <= bufpos - sentlen
      modifies this`sentlen, this`bufpos, this`sent
      ensures Ok() && old(sent) <= sent && |sent| == |old(sent)| + n
    {
      hide Count, Flat, Bytes, Counted, Unsent, Remaining;
      ghost var taken := AdvanceInBuffer(n);
      BytesConcat(sent, taken);
      sent := sent + taken;
    }

    lemma HeadFits()
      requires reply != [] && reply[0].ptr.Some?
      ensures |reply[0].ptr.value| <= |Flat(reply)|
    {
      FlatSplit(reply, 0);
    }

    /** An object leaves the head of the list; `all` are objects of interest. */
    method PopFront(ghost all: set<Object>)
      requires buf.Length == REPLY_CHUNK_BYTES && Counted() && reply != [] && reply[0].ptr.Some? && bufpos == 0
      requires forall o :: o in reply ==> o in all
      modifies this`reply, this`sentlen, all`refcount
      ensures Shape() && sentlen == 0 && reply == old(reply[1..])
      ensures old(|reply[0].ptr.value| <= |Flat(reply)|) && Flat(reply) == old(Flat(reply))[old(|reply[0].ptr.value|)..]
      ensures forall x :: x in all ==> Others(x) == old(Others(x))
    {
      hide Count, Flat;
      ghost var before := reply;
      var head := reply[0];
      HeadFits();
      FlatSplit(before, 0);
      FlatEmpty();
      assert before[..0] == [];
      forall x ensures Count(before, x) == Count(before[1..], x) + if x == head then 1 else 0 {
        CountWithout(before, 0, x);
        assert Without(before, 0) == before[1..];
      }
      CountIn(before, head);
      head.refcount := head.refcount - 1;
      reply := reply[1..];
      sentlen := 0;
      assert forall x :: x in reply ==> x in before;
    }

    /** An object without bytes is skipped. */
    method DropEmpty(ghost all: set<Object>)
      requires Ok() && bufpos == 0 && reply != [] && reply[0].ptr == Some("")
      requires forall o :: o in reply ==> o in all
      modifies this`reply, this`sentlen, all`refcount
      ensures Ok() && reply == old(reply[1..])
      ensures forall x :: x in all ==> Others(x) == old(Others(x))
    {
      hide Count, Flat, Bytes, Counted;
      PopFront(all);
    }

    /** `sentlen` advances inside the first object. */
    method AdvanceInList(n: nat, ghost all: set<Object>) returns (ghost taken: string)
      requires Shape() && bufpos == 0 && reply != [] && reply[0].ptr.Some? && 0 < n <= |reply[0].ptr.value| - sentlen
      requires forall o :: o in reply ==> o in all
      modifies this`sentlen, this`reply, all`refcount
      ensures Shape() && |taken| == n && old(Unsent()) == Bytes(taken) + Unsent()
      ensures reply == old(reply) || reply == old(reply[1..])
      ensures forall x :: x in all ==> Others(x) == old(Others(x))
    {
      hide Count, Flat, Bytes, Counted;
      var text := reply[0].ptr.value;
      taken := text[sentlen..sentlen + n];
      HeadBytes(text, n);
      sentlen := sentlen + n;
      if sentlen == |text| { PopFront(all); }
    }

    /** The part of the first object that the socket took. */
    method SentFromList(n: nat, ghost all: set<Object>)
      requires Ok() && bufpos == 0 && reply != [] && reply[0].ptr.Some? && 0 < n <= |reply[0].ptr.value| - sentlen
      requires forall o :: o in reply ==> o in all
      modifies this`sentlen, this`sent, this`reply, all`refcount
      ensures Ok() && old(sent) <= sent && |sent| == |old(sent)| + n
      ensures reply == old(reply) || reply == old(reply[1..])
      ensures forall x :: x in all ==> Others(x) == old(Others(x))
    {
      hide Count, Flat, Bytes, Counted, Unsent, Remaining, Others;
      ghost var taken := AdvanceInList(n, all);
      BytesConcat(sent, taken);
      sent := sent + taken;
    }

    lemma HeadBytes(text: string, n: nat)
      requires Shape() && bufpos == 0 && reply != [] && reply[0].ptr == Some(text) && sentlen + n <= |text|
      ensures |text| <= |Flat(reply)|
        && Flat(reply)[sentlen..] == Bytes(text[sentlen..sentlen + n]) + Flat(reply)[sentlen + n..]
    {
      hide Count, Flat;
      FlatSplit(reply, 0);
      FlatEmpty();
      assert reply[..0] == [];
      ghost var f := Flat(reply);
      assert f == Bytes(text) + Flat(reply[1..]);
      assert f[sentlen..sentlen + n] == Bytes(text[sentlen..sentlen + n]);
      assert f[sentlen..] == f[sentlen..sentlen + n] + f[sentlen + n..];
    }

    lemma AllSent()
      requires Ok() && bufpos == 0 && reply == []
      ensures sentlen == 0 && Bytes(sent) == stream
    {
    }

    /** What the next write offers to the socket: the rest of the buffer, or of the first object. */
    function Offered(): nat
      requires Shape() && (bufpos > 0 || (reply != [] && reply[0].ptr.Some?))
      reads this`bufpos, this`sentlen, this`reply, reply
    {
      if bufpos > 0 then bufpos - sentlen else |reply[0].ptr.value| - sentlen
    }

    lemma OfferedIsUnsent()
      requires Shape() && (bufpos > 0 || (reply != [] && reply[0].ptr.Some?))
      ensures Offered() <= |Unsent()|
    {
      hide Count, Flat, Counted;
      if bufpos == 0 { HeadBytes(reply[0].ptr.value, Offered()); }
    }

    lemma OkLength()
      requires Ok()
      ensures |sent| + |Unsent()| == |stream|
    {
      hide Unsent;
    }

    /** One round of the loop of sendReplyToClient: the buffer goes first, an empty object is skipped,
        and the socket takes what it is given, up to its own limit. */
    method SendSome(taken: int, ghost all: set<Object>) returns (nwritten: int, skipped: bool)
      requires Ok() && (bufpos > 0 || |reply| > 0) && forall o :: o in reply ==> o in all && o.ptr.Some?
      modifies this`sentlen, this`bufpos, this`sent, this`reply, all`refcount
      ensures Ok() && old(sent) <= sent && forall x :: x in all ==> Others(x) == old(Others(x))
      ensures reply == old(reply) || (old(reply) != [] && reply == old(reply[1..]))
      ensures skipped <==> old(Offered()) == 0
      ensures skipped ==> |reply| < |old(reply)| && sent == old(sent)
      ensures !skipped ==> nwritten == if taken < old(Offered()) then taken else old(Offered())
      ensures !skipped ==> |sent| == |old(sent)| + if nwritten > 0 then nwritten else 0
      ensures !skipped && nwritten <= 0 ==> Unsent() != []
    {
      hide Count, Flat, Bytes, Unsent, Counted;
      OfferedIsUnsent();
      nwritten, skipped := taken, false;
      if bufpos > 0 {
        if nwritten > bufpos - sentlen { nwritten := bufpos - sentlen; }
        if nwritten > 0 { SentFromBuffer(nwritten); }
      } else {
        var objlen := |reply[0].ptr.value|;
        if objlen == 0 {
          skipped := true;
          DropEmpty(all);
          return;
        }
        if nwritten > objlen - sentlen { nwritten := objlen - sentlen; }
        if nwritten > 0 { SentFromList(nwritten, all); }
      }
    }

    /** The loop of sendReplyToClient; `writes` are the sizes of the writes that were made. */
    method SendLoop(accept: seq<int>, unlimited: bool, ghost all: set<Object>) returns (ghost writes: seq<nat>)
      requires Ok() && forall o :: o in reply ==> o in all && o.ptr.Some?
      modifies this`sentlen, this`bufpos, this`sent, this`reply, all`refcount
      ensures Ok() && old(sent) <= sent && forall o :: o in reply ==> o in all && o.ptr.Some?
      ensures Taken(writes, accept) && |sent| == |old(sent)| + Sum(writes)
      ensures (bufpos == 0 && reply == []) || (Blocked(accept, |writes|) && Unsent() != [])
           || (Sum(writes) > MAX_WRITE_PER_EVENT && !unlimited)
      ensures writes != [] && !unlimited ==> Sum(writes[..|writes| - 1]) <= MAX_WRITE_PER_EVENT
      ensures forall x :: x in all ==> Others(x) == old(Others(x))
    {
      hide Ok, Others, Unsent, Shape, Sum;
      var k, totwritten := 0, 0;
      writes := [];
      SumNone();
      while bufpos > 0 || |reply| > 0
        invariant Ok() && old(sent) <= sent && k == |writes|
        invariant Taken(writes, accept) && totwritten == Sum(writes) && |sent| == |old(sent)| + totwritten
        invariant unlimited || totwritten <= MAX_WRITE_PER_EVENT
        invariant writes != [] && !unlimited ==> Sum(writes[..|writes| - 1]) <= MAX_WRITE_PER_EVENT
        invariant forall o :: o in reply ==> o in all && o.ptr.Some?
        invariant forall x :: x in all ==> Others(x) == old(Others(x))
        decreases |reply|, |accept| - k
      {
        OkShape();
        var nwritten := if k < |accept| then accept[k] else -1;
        var skipped;
        nwritten, skipped := SendSome(nwritten, all);
        if skipped { continue; }
        if nwritten <= 0 { break; }
        totwritten := totwritten + nwritten;
        SumSnoc(writes, nwritten);
        assert (writes + [nwritten])[..|writes|] == writes;
        writes := writes + [nwritten];
        k := k + 1;
        if totwritten > MAX_WRITE_PER_EVENT && !unlimited { break; }
      }
      OkShape();
    }

    lemma OkShape()
      requires Ok()
      ensures Shape()
    {
    }

    /** A round that is blocked with something left has sent less than was there. */
    lemma BlockedEarly(before: nat, writes: seq<nat>, accept: seq<int>)
      requires Ok() && Taken(writes, accept) && Blocked(accept, |writes|) && Unsent() != []
      requires |sent| == before + Sum(writes)
      ensures (forall a :: a in accept ==> a > 0) ==> |accept| < |stream| - before
    {
      hide Unsent;
      OkLength();
      SumAtLeast(writes);
      if |writes| < |accept| { assert accept[|writes|] in accept; }
    }

    /** `sendReplyToClient`: `accept` are the answers of the socket to the writes of this round (after
        the last of them it would block), `unlimited` says that memory is short and that no limit
        applies. A client that is closing is dropped when all is sent.

        `writes` are the sizes of the writes that were made. They go on until nothing is left, or the
        socket takes nothing, or more than the limit is sent; so with enough positive answers
        everything is sent. */
    method SendReplyToClient(accept: seq<int>, unlimited: bool) returns (dropped: bool, ghost writes: seq<nat>)
      requires Ok() && forall o :: o in reply ==> o.ptr.Some?
      modifies this`sentlen, this`bufpos, this`sent, this`reply, reply`refcount
      ensures Ok() && old(sent) <= sent && (forall o :: o in reply ==> o in old(reply))
      ensures Taken(writes, accept) && |sent| == |old(sent)| + Sum(writes)
      ensures bufpos == 0 && reply == [] ==> sentlen == 0 && Bytes(sent) == stream
      ensures bufpos > 0 || reply != [] ==>
                Blocked(accept, |writes|) || (Sum(writes) > MAX_WRITE_PER_EVENT && !unlimited)
      ensures writes != [] && !unlimited ==> Sum(writes[..|writes| - 1]) <= MAX_WRITE_PER_EVENT
      ensures unlimited && |accept| >= |old(Unsent())| && (forall a :: a in accept ==> a > 0) ==>
                bufpos == 0 && reply == [] && Bytes(sent) == stream
      ensures dropped <==> closing && bufpos == 0 && reply == []
      ensures forall x :: x in old(reply) ==> Others(x) == old(Others(x))
    {
      hide Ok, Others, Unsent, Shape, Sum, Taken, Blocked;
      ghost var all := set x | x in reply;
      OkLength();
      writes := SendLoop(accept, unlimited, all);
      if Blocked(accept, |writes|) {
        OkShape();
        if Unsent() != [] { BlockedEarly(|old(sent)|, writes, accept); }
      }
      dropped := false;
      if bufpos == 0 && |reply| == 0 {
        AllSent();
        sentlen := 0;
        dropped := closing;
      }
    }
  }
}
