/** `intset.c`: a sorted set of integers in a byte array, all of them stored in the smallest width
    (two, four or eight bytes) that fits them all. */
module Intset {

  type Byte = x: nat | x < 256

  const INT16_MIN: int := -32768
  const INT16_MAX: int := 32767
  const INT32_MIN: int := -2147483648
  const INT32_MAX: int := 2147483647
  const INT64_MIN: int := -9223372036854775808
  const INT64_MAX: int := 9223372036854775807
  const UINT32_LIMIT: nat := 0x1_0000_0000

  predicate IsEncoding(enc: nat) { enc == 2 || enc == 4 || enc == 8 }

  predicate Int64(v: int) { INT64_MIN <= v <= INT64_MAX }

  /** `_intsetValueEncoding`. */
  function ValueEncoding(v: int): (enc: nat)
    ensures IsEncoding(enc)
  {
    if v < INT32_MIN || v > INT32_MAX then 8
    else if v < INT16_MIN || v > INT16_MAX then 4
    else 2
  }

  function Limit(enc: nat): nat
    requires IsEncoding(enc)
  {
    if enc == 2 then 0x1_0000 else if enc == 4 then 0x1_0000_0000 else 0x1_0000_0000_0000_0000
  }

  /** The value is in the range of the width. */
  predicate Fits(v: int, enc: nat)
    requires IsEncoding(enc)
  {
    -(Limit(enc) / 2) <= v < Limit(enc) / 2
  }

  /** The encoding of a value is the smallest one that fits it. */
  lemma EncodingIsLeast(v: int, enc: nat)
    requires Int64(v) && IsEncoding(enc)
    ensures Fits(v, enc) <==> ValueEncoding(v) <= enc
  {
  }

  // ---------------------------------------------------------------- bytes

  /** `n` bytes of a number, the lowest first. */
  function Little(u: nat, n: nat): (b: seq<Byte>)
    ensures |b| == n
  {
    if n == 0 then [] else [u % 256] + Little(u / 256, n - 1)
  }

  function Number(b: seq<Byte>): nat {
    if b == [] then 0 else b[0] + 256 * Number(b[1..])
  }

  function Power(n: nat): nat { if n == 0 then 1 else 256 * Power(n - 1) }

  lemma {:induction false} NumberOfLittle(u: nat, n: nat)
    requires u < Power(n)
    ensures Number(Little(u, n)) == u
  {
    if n > 0 {
      NumberOfLittle(u / 256, n - 1);
      assert Little(u, n)[1..] == Little(u / 256, n - 1);
    }
  }

  lemma LimitIsPower(enc: nat)
    requires IsEncoding(enc)
    ensures Power(enc) == Limit(enc)
  {
    assert Power(1) == 256 && Power(2) == 65536;
    assert Power(3) == 16777216 && Power(4) == 4294967296;
    assert Power(5) == 1099511627776 && Power(6) == 281474976710656;
    assert Power(7) == 72057594037927936 && Power(8) == 18446744073709551616;
  }

  /** The stored form of a value: two's complement. */
  function Store(v: int, enc: nat): (b: seq<Byte>)
    requires IsEncoding(enc) && Fits(v, enc)
    ensures |b| == enc
  {
    Little(if v < 0 then v + Limit(enc) else v, enc)
  }

  function Load(b: seq<Byte>): int
    requires IsEncoding(|b|)
  {
    var u := Number(b);
    if u < Limit(|b|) / 2 then u else u - Limit(|b|)
  }

  lemma LoadStore(v: int, enc: nat)
    requires IsEncoding(enc) && Fits(v, enc)
    ensures Load(Store(v, enc)) == v
  {
    hide Number, Little, Power;
    LimitIsPower(enc);
    NumberOfLittle(if v < 0 then v + Limit(enc) else v, enc);
  }

  lemma {:induction false} NumberBound(b: seq<Byte>)
    ensures Number(b) < Power(|b|)
  {
    if b != [] {
      NumberBound(b[1..]);
    }
  }

  lemma LoadFits(b: seq<Byte>)
    requires IsEncoding(|b|)
    ensures Fits(Load(b), |b|)
  {
    hide Number, Power;
    NumberBound(b);
    LimitIsPower(|b|);
  }

  // ---------------------------------------------------------------- values in a byte string

  function Offset(i: nat, enc: nat): nat
    requires IsEncoding(enc)
  {
    if enc == 2 then 2 * i else if enc == 4 then 4 * i else 8 * i
  }

  /** So many values of this width take a number of bytes that an unsigned 32-bit variable holds. */
  predicate Addressable(n: nat, enc: nat)
    requires IsEncoding(enc)
  {
    Offset(n, enc) < UINT32_LIMIT
  }

  function Wider(a: nat, b: nat): nat { if b > a then b else a }

  /** `_intsetGetEncoded`. */
  function At(b: seq<Byte>, i: nat, enc: nat): int
    requires IsEncoding(enc) && Offset(i + 1, enc) <= |b|
  {
    Load(b[Offset(i, enc)..Offset(i, enc) + enc])
  }

  /** The first `n` values. */
  function Values(b: seq<Byte>, n: nat, enc: nat): (r: seq<int>)
    requires IsEncoding(enc) && Offset(n, enc) <= |b|
    ensures |r| == n
  {
    seq(n, i requires 0 <= i < n => At(b, i, enc))
  }

  ghost predicate Ascending(s: seq<int>) { forall i, j :: 0 <= i < j < |s| ==> s[i] < s[j] }

  /** Where a value is in an ascending sequence, or where it would have to be inserted. */
  ghost predicate IsPlace(s: seq<int>, v: int, pos: nat) {
    && pos <= |s|
    && (forall i :: 0 <= i < pos ==> s[i] < v)
    && (forall i :: pos <= i < |s| ==> v <= s[i])
  }

  lemma Middle(a: seq<Byte>, m: seq<Byte>, z: seq<Byte>)
    ensures (a + m + z)[|a|..|a| + |m|] == m
  {
    assert a + m + z == a + (m + z);
  }

  /** The write of one value leaves the others alone. */
  lemma AtWritten(b: seq<Byte>, c: seq<Byte>, i: nat, v: int, enc: nat, j: nat)
    requires IsEncoding(enc) && Fits(v, enc) && |b| == |c| && Offset(i + 1, enc) <= |b| && Offset(j + 1, enc) <= |b|
    requires c == b[..Offset(i, enc)] + Store(v, enc) + b[Offset(i, enc) + enc..]
    ensures At(c, j, enc) == if j == i then v else At(b, j, enc)
  {
    hide Load, Store;
    var o := Offset(j, enc);
    if j == i {
      Middle(b[..o], Store(v, enc), b[o + enc..]);
      LoadStore(v, enc);
    } else {
      var x, y := c[o..o + enc], b[o..o + enc];
      forall k | 0 <= k < enc ensures x[k] == y[k] { assert c[o + k] == b[o + k]; }
      assert x == y;
    }
  }

  /** The values of `s`, with a place for one more at `pos`. */
  ghost predicate HasGap(b: seq<Byte>, s: seq<int>, pos: nat, enc: nat) {
    && IsEncoding(enc) && pos <= |s| && Offset(|s| + 1, enc) == |b|
    && (forall i :: 0 <= i < pos ==> At(b, i, enc) == s[i])
    && (forall i :: pos < i <= |s| ==> At(b, i, enc) == s[i - 1])
  }

  lemma GapFilled(b: seq<Byte>, c: seq<Byte>, s: seq<int>, pos: nat, v: int, enc: nat)
    requires HasGap(b, s, pos, enc) && Fits(v, enc)
    requires c == b[..Offset(pos, enc)] + Store(v, enc) + b[Offset(pos, enc) + enc..]
    ensures |c| == |b| && Values(c, |s| + 1, enc) == s[..pos] + [v] + s[pos..]
  {
    hide At, Store;
    forall i | 0 <= i <= |s| ensures Values(c, |s| + 1, enc)[i] == (s[..pos] + [v] + s[pos..])[i] {
      AtWritten(b, c, pos, v, enc, i);
    }
  }

  lemma SamePrefix(b: seq<Byte>, c: seq<Byte>, n: nat, enc: nat)
    requires IsEncoding(enc) && Offset(n + 1, enc) <= |b| && Offset(n + 1, enc) <= |c|
    requires b[..Offset(n + 1, enc)] == c[..Offset(n + 1, enc)]
    ensures At(b, n, enc) == At(c, n, enc)
  {
    hide Load;
    var o := Offset(n, enc);
    assert b[o..o + enc] == b[..o + enc][o..] == c[..o + enc][o..] == c[o..o + enc];
  }

  lemma FitsWider(b: seq<Byte>, n: nat, enc: nat, wider: nat)
    requires IsEncoding(enc) && IsEncoding(wider) && enc <= wider && Offset(n + 1, enc) <= |b|
    ensures Fits(At(b, n, enc), wider)
  {
    hide Load;
    LoadFits(b[Offset(n, enc)..Offset(n, enc) + enc]);
  }

  lemma SameValues(b: seq<Byte>, c: seq<Byte>, n: nat, m: nat, enc: nat)
    requires IsEncoding(enc) && Offset(n, enc) <= m <= |b| && m <= |c| && b[..m] == c[..m]
    ensures forall i :: 0 <= i < n ==> At(b, i, enc) == At(c, i, enc)
  {
    hide At;
    forall i | 0 <= i < n ensures At(b, i, enc) == At(c, i, enc) {
      var k := Offset(i + 1, enc);
      assert b[..k] == b[..m][..k] == c[..m][..k] == c[..k];
      SamePrefix(b, c, i, enc);
    }
  }

  lemma Block(b: seq<Byte>, c: seq<Byte>, src: nat, dst: nat, n: nat, k: nat, enc: nat)
    requires src + n <= |b| && dst + n <= |c| && c[dst..dst + n] == b[src..src + n] && k + enc <= n
    ensures c[dst + k..dst + k + enc] == b[src + k..src + k + enc]
  {
    var x, y := c[dst + k..dst + k + enc], b[src + k..src + k + enc];
    forall j | 0 <= j < enc ensures x[j] == y[j] {
      assert c[dst..dst + n][k + j] == b[src..src + n][k + j];
    }
  }

  /** Values that were moved as a block read the same. */
  lemma MovedValues(b: seq<Byte>, c: seq<Byte>, from: nat, to: nat, n: nat, enc: nat)
    requires IsEncoding(enc) && Offset(from + n, enc) <= |b| && Offset(to + n, enc) <= |c|
    requires c[Offset(to, enc)..Offset(to + n, enc)] == b[Offset(from, enc)..Offset(from + n, enc)]
    ensures forall i :: to <= i < to + n ==> At(c, i, enc) == At(b, i - to + from, enc)
  {
    hide Load;
    forall i | to <= i < to + n ensures At(c, i, enc) == At(b, i - to + from, enc) {
      Block(b, c, Offset(from, enc), Offset(to, enc), Offset(n, enc), Offset(i - to, enc), enc);
    }
  }

  lemma Assembled(c: seq<Byte>, b: seq<Byte>, o: nat, bytes: seq<Byte>)
    requires |c| == |b| && o + |bytes| <= |b|
    requires forall i :: o <= i < o + |bytes| ==> c[i] == bytes[i - o]
    requires forall i :: 0 <= i < |b| && !(o <= i < o + |bytes|) ==> c[i] == b[i]
    ensures c == b[..o] + bytes + b[o + |bytes|..]
  {
  }

  // ---------------------------------------------------------------- the object

  class Set {
    var encoding: nat
    var length: nat
    var contents: array<Byte>

    ghost predicate Shape()
      reads this, contents
    {
      IsEncoding(encoding) && contents.Length == Offset(length, encoding)
    }

    ghost function View(): (r: seq<int>)
      requires Shape()
      reads this, contents
      ensures |r| == length
    {
      Values(contents[..], length, encoding)
    }

    /** The values are strictly ascending; that they fit the width follows from how they are read. */
    ghost predicate Ok()
      reads this, contents
    {
      Shape() && Ascending(View())
    }

    lemma ViewAt(i: nat)
      requires Shape() && i < length
      ensures Offset(i + 1, encoding) <= contents.Length && View()[i] == At(contents[..], i, encoding)
      ensures Fits(View()[i], encoding)
    {
      LoadFits(contents[..][Offset(i, encoding)..Offset(i, encoding) + encoding]);
    }

    /** `intsetNew`. */
    constructor ()
      ensures Ok() && fresh(contents) && View() == [] && encoding == 2
    {
      encoding, length, contents := 2, 0, new Byte[0];
    }

    /** `_intsetGetEncoded`. */
    method GetEncoded(pos: nat, enc: nat) returns (v: int)
      requires IsEncoding(enc) && Offset(pos + 1, enc) <= contents.Length
      ensures v == At(contents[..], pos, enc)
    {
      var o := Offset(pos, enc);
      assert contents[..][o..o + enc] == contents[o..o + enc];
      v := Load(contents[o..o + enc]);
    }

    /** `_intsetGet`. */
    method Get(pos: nat) returns (v: int)
      requires Shape() && pos < length
      ensures v == View()[pos]
    {
      ViewAt(pos);
      v := GetEncoded(pos, encoding);
    }

    /** The bytes are stored from offset `o` on. */
    method CopyIn(o: nat, bytes: seq<Byte>)
      requires o + |bytes| <= contents.Length
      modifies contents
      ensures contents[..] == old(contents[..o]) + bytes + old(contents[o + |bytes|..])
    {
      ghost var before := contents[..];
      var k := 0;
      while k < |bytes|
        invariant k <= |bytes|
        invariant forall i :: o <= i < o + k ==> contents[i] == bytes[i - o]
        invariant forall i :: 0 <= i < contents.Length && !(o <= i < o + k) ==> contents[i] == before[i]
      {
        contents[o + k] := bytes[k];
        k := k + 1;
      }
      Assembled(contents[..], before, o, bytes);
      assert before[..o] == old(contents[..o]) && before[o + |bytes|..] == old(contents[o + |bytes|..]);
    }

    /** `_intsetSet`. */
    method Put(pos: nat, v: int)
      requires IsEncoding(encoding) && Fits(v, encoding) && Offset(pos + 1, encoding) <= contents.Length
      modifies contents
      ensures contents[..] == old(contents[..Offset(pos, encoding)]) + Store(v, encoding)
                              + old(contents[Offset(pos, encoding) + encoding..])
    {
      hide Store;
      CopyIn(Offset(pos, encoding), Store(v, encoding));
    }

    /** `intsetResize`: the bytes in common are kept. */
    method Resize(len: nat)
      requires IsEncoding(encoding) && len * encoding < UINT32_LIMIT
      modifies this`contents
      ensures fresh(contents) && contents.Length == Offset(len, encoding)
      ensures old(contents.Length) <= contents.Length ==> contents[..old(contents.Length)] == old(contents[..])
      ensures contents.Length <= old(contents.Length) ==> contents[..] == old(contents[..])[..contents.Length]
    {
      var size := (len * encoding) % UINT32_LIMIT;
      assert size == Offset(len, encoding);
      ghost var before := contents[..];
      var resized := new Byte[size];
      var i := 0;
      while i < size && i < contents.Length
        invariant i <= size && i <= contents.Length && contents[..] == before
        invariant forall j :: 0 <= j < i ==> resized[j] == before[j]
      {
        resized[i] := contents[i];
        i := i + 1;
      }
      assert if |before| <= size then resized[..|before|] == before else resized[..] == before[..size];
      contents := resized;
    }

    /** `intsetSearch`. */
    method Search(v: int) returns (found: bool, pos: nat)
      requires Ok() && length <= INT32_MAX
      ensures found <==> v in View()
      ensures IsPlace(View(), v, pos) && (found ==> pos < length && View()[pos] == v)
    {
      hide Values;
      var min, max, mid, cur := 0, length - 1, -1, -1;
      if length == 0 { return false, 0; }
      var last := Get(length - 1);
      if v > last { return false, length; }
      var first := Get(0);
      if v < first { return false, 0; }
      while max >= min
        invariant 0 <= min <= max + 1 <= length && -1 <= mid
        invariant forall i :: 0 <= i < min ==> View()[i] < v
        invariant forall i :: max < i < length ==> v < View()[i]
        invariant if mid == -1 then min == 0 && max == length - 1 else cur != v
        decreases max - min
      {
        mid := (min + max) / 2;
        cur := Get(mid);
        if v > cur {
          min := mid + 1;
        } else if v < cur {
          max := mid - 1;
        } else {
          break;
        }
      }
      if v == cur { return true, mid; }
      return false, min;
    }

    /** `intsetFind`. */
    method Find(v: int) returns (found: bool)
      requires Ok() && length <= INT32_MAX && Int64(v)
      ensures found <==> v in View()
    {
      hide View;
      if ValueEncoding(v) > encoding {
        TooWide(v);
        return false;
      }
      var pos;
      found, pos := Search(v);
    }

    /** What does not fit the width is not in the set, and lies on one side of all its values. */
    lemma TooWide(v: int)
      requires Ok() && Int64(v) && ValueEncoding(v) > encoding
      ensures v !in View() && !Fits(v, encoding)
      ensures forall i :: 0 <= i < length ==> if v < 0 then v < View()[i] else View()[i] < v
    {
      EncodingIsLeast(v, encoding);
      forall i | 0 <= i < length ensures Fits(View()[i], encoding) { ViewAt(i); }
    }

    /** One round of the widening: value `n` is read in the old width and written in the new one. The
        bytes of the values not yet read are not touched. */
    method Widen(n: nat, prepend: nat, curenc: nat, ghost b: seq<Byte>)
      requires IsEncoding(curenc) && IsEncoding(encoding) && curenc < encoding && prepend <= 1 && n < length
      requires contents.Length == Offset(length + 1, encoding) && |b| == Offset(length, curenc)
      requires contents[..Offset(n + 1, curenc)] == b[..Offset(n + 1, curenc)]
      requires forall i :: n < i < length ==> At(contents[..], i + prepend, encoding) == At(b, i, curenc)
      modifies contents
      ensures contents[..Offset(n, curenc)] == b[..Offset(n, curenc)]
      ensures forall i :: n <= i < length ==> At(contents[..], i + prepend, encoding) == At(b, i, curenc)
    {
      hide Load, Store, At;
      var v := GetEncoded(n, curenc);
      SamePrefix(contents[..], b, n, curenc);
      FitsWider(b, n, curenc, encoding);
      ghost var before := contents[..];
      Put(n + prepend, v);
      Widened(before, contents[..], b, n, length, prepend, v, curenc, encoding);
    }

    lemma Widened(c: seq<Byte>, d: seq<Byte>, b: seq<Byte>, n: nat, len: nat, prepend: nat, v: int, curenc: nat,
                  enc: nat)
      requires IsEncoding(curenc) && IsEncoding(enc) && curenc < enc && prepend <= 1 && n < len && Fits(v, enc)
      requires |c| == |d| == Offset(len + 1, enc) && |b| == Offset(len, curenc) && v == At(b, n, curenc)
      requires c[..Offset(n + 1, curenc)] == b[..Offset(n + 1, curenc)]
      requires forall i :: n < i < len ==> At(c, i + prepend, enc) == At(b, i, curenc)
      requires d == c[..Offset(n + prepend, enc)] + Store(v, enc) + c[Offset(n + prepend, enc) + enc..]
      ensures d[..Offset(n, curenc)] == b[..Offset(n, curenc)]
      ensures forall i :: n <= i < len ==> At(d, i + prepend, enc) == At(b, i, curenc)
    {
      hide Load, Store, At;
      forall i | n <= i < len ensures At(d, i + prepend, enc) == At(b, i, curenc) {
        AtWritten(c, d, n + prepend, v, enc, i + prepend);
      }
      var k := Offset(n, curenc);
      assert b[..k] == b[..Offset(n + 1, curenc)][..k];
      assert d[..k] == c[..k] == c[..Offset(n + 1, curenc)][..k];
    }

    /** `intsetUpgradeAndAdd`: the values are widened in place, from the last to the first. */
    method UpgradeAndAdd(v: int)
      requires Ok() && Int64(v) && ValueEncoding(v) > encoding && Addressable(length + 1, ValueEncoding(v))
      modifies this
      ensures Ok() && encoding == ValueEncoding(v) && fresh(contents)
      ensures View() == if v < 0 then [v] + old(View()) else old(View()) + [v]
    {
      hide Load, Store, At;
      TooWide(v);
      EncodingIsLeast(v, ValueEncoding(v));
      var prepend := if v < 0 then 1 else 0;
      ghost var s := View();
      WidenAll(prepend, ValueEncoding(v));
      var at := if prepend == 1 then 0 else length;
      GapFilledBy(s, at, v);
      Put(at, v);
      length := length + 1;
      assert s[..at] + [v] + s[at..] == if v < 0 then [v] + s else s + [v];
    }

    /** What storing a value in the gap will make of the contents. */
    lemma GapFilledBy(s: seq<int>, pos: nat, v: int)
      requires HasGap(contents[..], s, pos, encoding) && Fits(v, encoding)
      ensures var o := Offset(pos, encoding);
        var c := contents[..o] + Store(v, encoding) + contents[o + encoding..];
        |c| == contents.Length && Values(c, |s| + 1, encoding) == s[..pos] + [v] + s[pos..]
    {
      hide Values, At, Store;
      var b := contents[..];
      assert contents[..Offset(pos, encoding)] == b[..Offset(pos, encoding)];
      assert contents[Offset(pos, encoding) + encoding..] == b[Offset(pos, encoding) + encoding..];
      var o := Offset(pos, encoding);
      GapFilled(b, b[..o] + Store(v, encoding) + b[o + encoding..], s, pos, v, encoding);
    }

    /** The loop of `intsetUpgradeAndAdd`. */
    method WidenAll(prepend: nat, newenc: nat)
      requires Ok() && IsEncoding(newenc) && newenc > encoding && prepend <= 1 && Addressable(length + 1, newenc)
      modifies this`encoding, this`contents
      ensures encoding == newenc && fresh(contents)
      ensures HasGap(contents[..], old(View()), if prepend == 1 then 0 else length, encoding)
    {
      hide Load, Store, At;
      var curenc := encoding;
      var n: nat := length;
      ghost var b := contents[..];
      encoding := newenc;
      Resize(length + 1);
      assert b[..|b|] == b;
      while n > 0
        invariant n <= length && encoding == newenc && contents.Length == Offset(length + 1, newenc) && fresh(contents)
        invariant contents[..Offset(n, curenc)] == b[..Offset(n, curenc)]
        invariant forall i :: n <= i < length ==> At(contents[..], i + prepend, newenc) == At(b, i, curenc)
      {
        n := n - 1;
        Widen(n, prepend, curenc, b);
      }
      Shifted(contents[..], b, prepend, length, curenc, newenc);
    }

    lemma Shifted(c: seq<Byte>, b: seq<Byte>, prepend: nat, n: nat, curenc: nat, newenc: nat)
      requires IsEncoding(curenc) && IsEncoding(newenc) && prepend <= 1
      requires |c| == Offset(n + 1, newenc) && |b| == Offset(n, curenc)
      requires forall i :: 0 <= i < n ==> At(c, i + prepend, newenc) == At(b, i, curenc)
      ensures HasGap(c, Values(b, n, curenc), if prepend == 1 then 0 else n, newenc)
    {
      hide At;
      if prepend == 1 {
        forall i | 0 < i <= n ensures At(c, i, newenc) == At(b, i - 1, curenc) {
          assert At(c, (i - 1) + prepend, newenc) == At(b, i - 1, curenc);
        }
      } else {
        forall i | 0 <= i < n ensures At(c, i, newenc) == At(b, i, curenc) {
          assert At(c, i + prepend, newenc) == At(b, i, curenc);
        }
      }
    }

    // -------------------------------------------------------------- insertion and removal

    /** `memmove` inside the contents. */
    method Memmove(dst: nat, src: nat, n: nat)
      requires dst + n <= contents.Length && src + n <= contents.Length
      modifies contents
      ensures contents[..] == old(contents[..dst] + contents[src..src + n] + contents[dst + n..])
    {
      var bytes := contents[src..src + n];
      CopyIn(dst, bytes);
      assert old(contents[..dst] + contents[src..src + n] + contents[dst + n..])
          == old(contents[..dst]) + bytes + old(contents[dst + n..]);
    }

    /** `intsetMoveTail`: the values from `from` on are moved to `to`. */
    method MoveTail(from: nat, to: nat)
      requires IsEncoding(encoding) && from <= length && Addressable(length - from, encoding)
      requires Offset(length, encoding) <= contents.Length && Offset(to + (length - from), encoding) <= contents.Length
      modifies contents
      ensures contents[..Offset(to, encoding)] == old(contents[..Offset(to, encoding)])
      ensures forall i :: to <= i < to + (length - from) ==>
        At(contents[..], i, encoding) == old(At(contents[..], i - to + from, encoding))
    {
      hide At;
      var src, dst, bytes := Offset(from, encoding), Offset(to, encoding), Offset(length - from, encoding);
      ghost var b := contents[..];
      Memmove(dst, src, bytes);
      ghost var c := contents[..];
      assert c[dst..dst + bytes] == b[src..src + bytes];
      MovedValues(b, c, from, to, length - from, encoding);
    }

    /** The first steps of `intsetAdd`: one more place, at `pos`. */
    method OpenGap(pos: nat)
      requires Ok() && pos <= length && Addressable(length + 1, encoding)
      modifies this`contents
      ensures fresh(contents) && HasGap(contents[..], old(View()), pos, encoding)
    {
      hide At;
      ghost var b := contents[..];
      Resize(length + 1);
      ghost var c := contents[..];
      assert c[..|b|] == b;
      if pos < length { MoveTail(pos, pos + 1); }
      GapOpened(b, c, contents[..], length, pos, encoding);
    }

    lemma GapOpened(b: seq<Byte>, c: seq<Byte>, d: seq<Byte>, n: nat, pos: nat, enc: nat)
      requires IsEncoding(enc) && pos <= n && |b| == Offset(n, enc) && |c| == |d| == Offset(n + 1, enc) && c[..|b|] == b
      requires d[..Offset(pos, enc)] == c[..Offset(pos, enc)]
      requires forall i :: pos + 1 <= i < n + 1 ==> At(d, i, enc) == At(c, i - 1, enc)
      ensures HasGap(d, Values(b, n, enc), pos, enc)
    {
      hide At;
      assert b[..|b|] == b == c[..|b|];
      SameValues(b, c, n, |b|, enc);
      SameValues(c, d, pos, Offset(pos, enc), enc);
    }

    /** `intsetAdd`. */
    method Add(v: int) returns (success: bool)
      requires Ok() && Int64(v) && Addressable(length, encoding)
      requires v !in View() ==> Addressable(length + 1, Wider(encoding, ValueEncoding(v)))
      modifies this, contents
      ensures Ok() && success == (v !in old(View()))
      ensures !success ==> View() == old(View())
      ensures success ==>
                exists pos: nat ::
                  IsPlace(old(View()), v, pos)
                  && View() == old(View())[..pos] + [v] + old(View())[pos..]
      ensures Members(View()) == Members(old(View())) + {v}
      ensures encoding == Wider(old(encoding), ValueEncoding(v))
    {
      hide Load, Store, At, Values;
      ghost var s := View();
      var valenc := ValueEncoding(v);
      if valenc > encoding {
        TooWide(v);
        UpgradeAndAdd(v);
        ghost var place: nat := if v < 0 then 0 else |s|;
        assert IsPlace(s, v, place) && View() == s[..place] + [v] + s[place..];
        InsertedMembers(s, v, place);
        return true;
      }
      var found, pos := Search(v);
      if found { return false; }
      OpenGap(pos);
      EncodingIsLeast(v, encoding);
      GapFilledBy(s, pos, v);
      Put(pos, v);
      length := length + 1;
      InsertedMembers(s, v, pos);
      return true;
    }

    /** The last steps of `intsetRemove`: the value at `pos` is overwritten. */
    method CloseGap(pos: nat)
      requires Ok() && pos < length && Addressable(length, encoding)
      modifies this`contents, this`length, contents
      ensures Shape() && View() == old(View())[..pos] + old(View())[pos + 1..]
    {
      hide At;
      var len := length;
      ghost var s, b := View(), contents[..];
      if pos < len - 1 { MoveTail(pos + 1, pos); }
      ghost var c := contents[..];
      assert c[..Offset(pos, encoding)] == b[..Offset(pos, encoding)];
      SameValues(b, c, pos, Offset(pos, encoding), encoding);
      Resize(len - 1);
      length := len - 1;
      SameValues(c, contents[..], length, contents.Length, encoding);
      assert View() == s[..pos] + s[pos + 1..];
    }

    /** `intsetRemove`. */
    method Remove(v: int) returns (success: bool)
      requires Ok() && Int64(v) && Addressable(length, encoding)
      modifies this, contents
      ensures Ok() && success == (v in old(View())) && encoding == old(encoding)
      ensures Members(View()) == Members(old(View())) - {v}
    {
      hide Load, Store, At, Values;
      ghost var s := View();
      success := false;
      if ValueEncoding(v) > encoding {
        TooWide(v);
        return;
      }
      var found, pos := Search(v);
      if !found { return; }
      success := true;
      CloseGap(pos);
      RemovedMembers(s, v, pos);
    }
  }

  // ---------------------------------------------------------------- a mathematical set

  function Members(s: seq<int>): set<int> { set x | x in s }

  /** The members on either side of a position. */
  lemma MembersAround(s: seq<int>, pos: nat)
    requires pos < |s|
    ensures Members(s) == Members(s[..pos]) + {s[pos]} + Members(s[pos + 1..])
  {
    assert s == s[..pos] + [s[pos]] + s[pos + 1..];
  }

  lemma MembersAppend(a: seq<int>, b: seq<int>)
    ensures Members(a + b) == Members(a) + Members(b)
  {
    assert forall x :: x in a + b <==> x in a || x in b;
  }

  /** Insertion at the place of an absent value adds it to the set and keeps the order. */
  lemma InsertedMembers(s: seq<int>, v: int, pos: nat)
    requires Ascending(s) && IsPlace(s, v, pos) && v !in s
    ensures Ascending(s[..pos] + [v] + s[pos..]) && Members(s[..pos] + [v] + s[pos..]) == Members(s) + {v}
  {
    hide Members;
    assert s == s[..pos] + s[pos..];
    MembersAppend(s[..pos], s[pos..]);
    MembersAppend(s[..pos] + [v], s[pos..]);
    MembersAppend(s[..pos], [v]);
    assert Members([v]) == {v} by { OneMember(v); }
  }

  lemma OneMember(v: int)
    ensures Members([v]) == {v}
  {
  }

  /** Taking out a value takes it, and nothing else, from the set. */
  lemma RemovedMembers(s: seq<int>, v: int, pos: nat)
    requires Ascending(s) && pos < |s| && s[pos] == v
    ensures Ascending(s[..pos] + s[pos + 1..]) && Members(s[..pos] + s[pos + 1..]) == Members(s) - {v}
  {
    hide Members;
    MembersAround(s, pos);
    MembersAppend(s[..pos], s[pos + 1..]);
    NotAround(s, pos);
  }

  lemma NotAround(s: seq<int>, pos: nat)
    requires Ascending(s) && pos < |s|
    ensures s[pos] !in Members(s[..pos]) && s[pos] !in Members(s[pos + 1..])
  {
  }
}
