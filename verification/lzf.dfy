/** lzf_c.c and lzf_d.c: the compressor and the decompressor over buffers, the round trip, and the
    bound on the compressed size. */
module Lzf {
  import opened LzfFormat
  import opened LzfPlan

  // ---------------------------------------------------------------- decompression

  method CopyLiteral(src: array<Byte>, ip: nat, out: array<Byte>, op: nat, n: nat)
    requires src != out && ip + n <= src.Length && op + n <= out.Length
    modifies out
    ensures out[..op + n] == old(out[..op]) + src[ip..ip + n]
  {
    var i := 0;
    while i < n
      invariant i <= n
      invariant out[..op + i] == old(out[..op]) + src[ip..ip + i]
    {
      out[op + i] := src[ip + i];
      assert out[..op + i + 1] == out[..op + i] + [src[ip + i]];
      assert src[ip..ip + i + 1] == src[ip..ip + i] + [src[ip + i]];
      i := i + 1;
    }
  }

  /** The copy loop of a back reference: source and destination may overlap. */
  method CopyReference(out: array<Byte>, from: nat, op: nat, n: nat)
    requires from < op && op + n <= out.Length
    modifies out
    ensures out[..op + n] == CopyBack(old(out[..op]), from, n)
  {
    var i := 0;
    while i < n
      invariant i <= n
      invariant CopyBack(out[..op + i], from + i, n - i) == CopyBack(old(out[..op]), from, n)
    {
      ghost var o := out[..op + i];
      out[op + i] := out[from + i];
      assert out[..op + i + 1] == o + [o[from + i]];
      i := i + 1;
    }
  }

  /** One round of the loop, unless it ends in an error return. */
  method DecompressRound(src: array<Byte>, inLen: nat, start: nat, out: array<Byte>, written: nat, outLen: nat)
    returns (ok: bool, ip: nat, op: nat)
    requires src != out && start < inLen <= src.Length && written <= outLen <= out.Length
    modifies out
    ensures var round := Round(src[..inLen], start, old(out[..written]), outLen);
      if round.None? then !ok
      else ok && ip <= inLen && op <= outLen && round.value == (ip, out[..op])
  {
    hide CopyBack;
    ip, op := start, written;
    var ctrl: nat := src[ip];
    ip := ip + 1;
    if ctrl < 32 {
      ctrl := ctrl + 1;
      if op + ctrl > outLen { return false, ip, op; }
      if ip + ctrl > inLen { return false, ip, op; }
      assert src[ip..ip + ctrl] == src[..inLen][ip..ip + ctrl];
      CopyLiteral(src, ip, out, op, ctrl);
      ip, op := ip + ctrl, op + ctrl;
    } else {
      var len: nat := ctrl / 32;
      var ref: int := op - (ctrl % 32) * 256 - 1;
      if ip >= inLen { return false, ip, op; }
      if len == 7 {
        var more: nat := src[ip];
        len := len + more;
        ip := ip + 1;
        if ip >= inLen { return false, ip, op; }
      }
      var low: nat := src[ip];
      ref := ref - low;
      ip := ip + 1;
      if op + len + 2 > outLen { return false, ip, op; }
      if ref < 0 { return false, ip, op; }
      CopyReference(out, ref, op, len + 2);
      op := op + len + 2;
    }
    ok := true;
  }

  /** `lzf_decompress`: the number of bytes written, 0 on an error and only then. */
  method Decompress(src: array<Byte>, inLen: nat, out: array<Byte>, outLen: nat) returns (r: nat)
    requires src != out && 0 < inLen <= src.Length && outLen <= out.Length
    modifies out
    ensures var e := Expand(src[..inLen], 0, [], outLen);
      if e.None? then r == 0 else 0 < r == |e.value| <= outLen && out[..r] == e.value
  {
    hide Round;
    if Expand(src[..inLen], 0, [], outLen).Some? { ExpandGrows(src[..inLen], 0, [], outLen); }
    var ip: nat, op: nat := 0, 0;
    ghost var data := src[..inLen];
    assert out[..0] == [];
    while ip < inLen
      invariant ip <= inLen && op <= outLen
      invariant Expand(data, ip, out[..op], outLen) == Expand(data, 0, [], outLen)
      invariant src[..inLen] == data
    {
      var ok, ip', op' := DecompressRound(src, inLen, ip, out, op, outLen);
      if !ok { return 0; }
      ip, op := ip', op';
    }
    r := op;
  }

  // ---------------------------------------------------------------- compression, on sequences

  /** The compressor between two tokens: `ts` has been written and stands for the data so far. */
  ghost predicate Closed(data: seq<Byte>, ip: nat, o: seq<Byte>, ts: seq<Token>) {
    ip <= |data| && AllEncodable(ts) && o == EncodeAll(ts) && Meaning([], ts) == Some(data[..ip])
  }

  /** The compressor inside a literal run of `lit` bytes: one byte is left for its header. */
  ghost predicate Open(data: seq<Byte>, ip: nat, lit: nat, o: seq<Byte>, ts: seq<Token>) {
    && lit <= ip <= |data| && lit < |o|
    && Closed(data, ip - lit, o[..|o| - lit - 1], ts)
    && o[|o| - lit..] == data[ip - lit..ip]
  }

  /** The size reached is paid for: one extra byte for each full run of 32 literals. */
  ghost predicate Paid(size: nat, ip: nat) {
    size <= ip + ip / 32
  }

  lemma AddLiteral(data: seq<Byte>, ip: nat, lit: nat, o: seq<Byte>, ts: seq<Token>)
    requires Open(data, ip, lit, o, ts) && ip < |data|
    ensures Open(data, ip + 1, lit + 1, o + [data[ip]], ts)
  {
    hide Closed;
    var o' := o + [data[ip]];
    assert o'[..|o'| - (lit + 1) - 1] == o[..|o| - lit - 1];
    assert o'[|o'| - (lit + 1)..] == o[|o| - lit..] + [data[ip]];
    assert data[ip - lit..ip + 1] == data[ip - lit..ip] + [data[ip]];
  }

  /** Ending a run: its header is filled in, or the run is dropped if it is empty. */
  lemma CloseRun(data: seq<Byte>, ip: nat, lit: nat, o: seq<Byte>, ts: seq<Token>) returns (ts': seq<Token>)
    requires Open(data, ip, lit, o, ts) && lit <= MAX_LIT
    ensures lit == 0 ==> Closed(data, ip, o[..|o| - 1], ts')
    ensures lit > 0 ==> Closed(data, ip, o[|o| - lit - 1 := (lit - 1) as Byte], ts')
  {
    hide Closed;
    if lit == 0 {
      ts' := ts;
    } else {
      var front := o[..|o| - lit - 1];
      ts' := AddRun(data, ip - lit, lit, front, ts);
      assert o[|o| - lit - 1 := (lit - 1) as Byte] == front + ([(lit - 1) as Byte] + o[|o| - lit..]);
    }
  }

  lemma AddRun(data: seq<Byte>, from: nat, lit: nat, o: seq<Byte>, ts: seq<Token>) returns (ts': seq<Token>)
    requires Closed(data, from, o, ts) && 1 <= lit <= MAX_LIT && from + lit <= |data|
    ensures Closed(data, from + lit, o + ([(lit - 1) as Byte] + data[from..from + lit]), ts')
  {
    hide Meaning, EncodeAll, Encode;
    var run := data[from..from + lit];
    var t := Lit(run);
    ts' := ts + [t];
    EncodeAllAppend(ts, t);
    EncodeLit(run);
    MeaningAppend([], ts, t);
    assert data[..from] + run == data[..from + lit];
  }

  lemma EncodeLit(bytes: seq<Byte>)
    requires 1 <= |bytes| <= MAX_LIT
    ensures Encode(Lit(bytes)) == [(|bytes| - 1) as Byte] + bytes
  {
  }

  lemma StartRun(data: seq<Byte>, ip: nat, o: seq<Byte>, b: Byte, ts: seq<Token>)
    requires Closed(data, ip, o, ts)
    ensures Open(data, ip, 0, o + [b], ts)
  {
    assert (o + [b])[..|o + [b]| - 1] == o;
    assert (o + [b])[|o + [b]|..] == [] == data[ip..ip];
  }

  /** A match becomes a reference token. */
  lemma AddReference(data: seq<Byte>, ip: nat, ref: nat, n: nat, o: seq<Byte>, ts: seq<Token>) returns (ts': seq<Token>)
    requires Closed(data, ip, o, ts)
    requires ref < ip && ip - ref - 1 < MAX_OFF && 3 <= n <= MAX_REF && ip + n <= |data|
    requires data[ref..ref + n] == data[ip..ip + n]
    ensures Closed(data, ip + n, o + Encode(Ref(ip - ref - 1, n - 2)), ts')
  {
    hide EncodeAll, Encode, Meaning, CopyBack;
    var t := Ref(ip - ref - 1, n - 2);
    ts' := ts + [t];
    EncodeAllAppend(ts, t);
    MeaningAppend([], ts, t);
    CopyBackMatch(data, ref, ip, n);
  }

  /** Three matched bytes pay for the two bytes of a short reference and for the header of the run
      before it; nine pay for a long one. */
  lemma MatchIsPaid(size: nat, ip: nat, lit: nat, n: nat)
    requires lit <= ip && Paid(size, ip - lit) && n >= 3
    ensures Paid(size + (if lit == 0 then 0 else lit + 1) + (if n - 2 < 7 then 2 else 3), ip + n)
  {
  }

  lemma FullRunIsPaid(size: nat, ip: nat)
    requires MAX_LIT <= ip && Paid(size, ip - MAX_LIT)
    ensures Paid(size + MAX_LIT + 1, ip)
  {
  }

  // ---------------------------------------------------------------- compression, in place

  /** The tests that make a table entry a match. */
  method IsMatch(input: array<Byte>, n: nat, ip: nat, ref: int) returns (off: nat, b: bool)
    requires 2 <= n <= input.Length && ip + 2 < n < U32 && Address(ref)
    ensures b <==> Usable(input[..n], ip, ref)
    ensures b <==> 0 < ref < ip && ip - ref - 1 < MAX_OFF && ip + 4 < n && Same(input[..], ref, ip, 3)
    ensures b ==> off == ip - ref - 1
  {
    var diff := ip - ref - 1;
    off := if diff < 0 then diff + U64 else diff;
    b := off < MAX_OFF && ip + 4 < n && ref > 0;
    if b {
      b := input[ref] == input[ip] && input[ref + 1] == input[ip + 1] && input[ref + 2] == input[ip + 2];
      ThreeBytes(input[..], ref, ip);
    }
  }

  lemma ThreeBytes(a: seq<Byte>, ref: nat, ip: nat)
    requires ref <= ip && ip + 3 <= |a|
    ensures Same(a, ref, ip, 3) <==> a[ref] == a[ip] && a[ref + 1] == a[ip + 1] && a[ref + 2] == a[ip + 2]
  {
    assert a[ref..ref + 3] == [a[ref], a[ref + 1], a[ref + 2]];
    assert a[ip..ip + 3] == [a[ip], a[ip + 1], a[ip + 2]];
  }

  /** The `len` bytes at `ip` repeat those at `ref`. */
  ghost predicate Same(a: seq<Byte>, ref: nat, ip: nat, len: nat)
    requires ref <= ip && ip + len <= |a|
  {
    a[ref..ref + len] == a[ip..ip + len]
  }

  lemma Longer(a: seq<Byte>, ref: nat, ip: nat, len: nat)
    requires ref <= ip && ip + len < |a| && Same(a, ref, ip, len) && a[ref + len] == a[ip + len]
    ensures Same(a, ref, ip, len + 1)
  {
    assert a[ref..ref + len + 1] == a[ref..ref + len] + [a[ref + len]];
    assert a[ip..ip + len + 1] == a[ip..ip + len] + [a[ip + len]];
  }

  /** The comparison loops: sixteen unrolled steps, then one byte at a time. */
  method Compared(input: array<Byte>, n: nat, ref: nat, ip: nat) returns (len: nat)
    requires n <= input.Length && ref < ip && ip + 4 < n
    requires Same(input[..], ref, ip, 3)
    ensures 3 <= len <= Limit(n, ip) && Same(input[..], ref, ip, len)
    ensures len < Limit(n, ip) ==> input[ref + len] != input[ip + len]
  {
    hide Same;
    len := 2;
    var maxlen: nat := n - ip - len;
    if maxlen > MAX_REF { maxlen := MAX_REF; }
    if maxlen > 16 {
      var step := 0;
      while step < 16
        invariant step <= 16 && len == 2 + step
        invariant Same(input[..], ref, ip, len + 1)
      {
        len := len + 1;
        if input[ref + len] != input[ip + len] { return; }
        Longer(input[..], ref, ip, len);
        step := step + 1;
      }
    }
    len := len + 1;
    while len < maxlen && input[ref + len] == input[ip + len]
      invariant 3 <= len <= Limit(n, ip) && ip + len <= n
      invariant Same(input[..], ref, ip, len)
    {
      Longer(input[..], ref, ip, len);
      len := len + 1;
    }
  }

  lemma SameMeansEqual(a: seq<Byte>, n: nat, ref: nat, ip: nat, len: nat)
    requires ref < ip && ip + len <= n <= |a| && Same(a, ref, ip, len)
    ensures forall k: nat :: k < len ==> EqualAt(a[..n], ref, ip, k)
  {
    forall k: nat | k < len ensures EqualAt(a[..n], ref, ip, k) {
      assert a[ref..ref + len][k] == a[ip..ip + len][k];
    }
  }

  /** The length of a match is the longest that the limit allows. */
  method MatchLength(input: array<Byte>, n: nat, ref: nat, ip: nat) returns (len: nat)
    requires n <= input.Length && ref < ip && ip + 4 < n
    requires Same(input[..], ref, ip, 3)
    ensures 3 <= len <= Limit(n, ip) && Same(input[..], ref, ip, len)
    ensures len < Limit(n, ip) ==> input[ref + len] != input[ip + len]
    ensures len == Longest(input[..n], ref, ip, 3, Limit(n, ip))
  {
    len := Compared(input, n, ref, ip);
    SameMeansEqual(input[..], n, ref, ip, len);
    LongestIs(input[..n], ref, ip, 3, Limit(n, ip), len);
  }

  /** Writing a reference: two bytes, or three for a long match. */
  method WriteReference(out: array<Byte>, start: nat, off: nat, octets: nat) returns (op: nat)
    requires off < MAX_OFF && 3 <= octets <= MAX_REF && start + 3 <= out.Length
    modifies out
    ensures op == start + if octets - 2 < 7 then 2 else 3
    ensures out[..op] == old(out[..start]) + Encode(Ref(off, octets - 2))
  {
    op := start;
    var len := octets - 2;
    if len < 7 {
      out[op] := off / 256 + len * 32;
      op := op + 1;
    } else {
      out[op] := off / 256 + 7 * 32;
      out[op + 1] := len - 7;
      op := op + 2;
    }
    out[op] := off % 256;
    op := op + 1;
    assert out[..start] == old(out[..start]);
    assert out[start..op] == if len < 7 then [out[start], out[start + 1]]
                             else [out[start], out[start + 1], out[start + 2]];
    assert out[..op] == out[..start] + out[start..op];
  }

  /** The state of the compressor between two rounds. */
  ghost predicate InRun(data: seq<Byte>, ip: nat, lit: nat, o: seq<Byte>, ts: seq<Token>) {
    Open(data, ip, lit, o, ts) && lit < MAX_LIT && Paid(|o| - lit - 1, ip - lit)
  }

  /** Appending one literal, and starting a new run when this one is full. */
  method PutLiteral(input: array<Byte>, n: nat, ip: nat, out: array<Byte>, op: nat, lit: nat, ghost ts: seq<Token>)
    returns (op': nat, lit': nat, ghost ts': seq<Token>)
    requires input != out && ip < n <= input.Length && op + 1 < out.Length
    requires InRun(input[..n], ip, lit, out[..op], ts)
    modifies out
    ensures (op', lit') == PlusLiteral(op, lit) && op' <= out.Length
    ensures InRun(input[..n], ip + 1, lit', out[..op'], ts')
  {
    hide Open, Closed, Paid;
    ghost var data, o := input[..n], out[..op];
    OpenFacts(data, ip, lit, o, ts);
    ts' := ts;
    AddLiteral(data, ip, lit, o, ts);
    out[op] := input[ip];
    assert out[..op + 1] == o + [data[ip]];
    op', lit' := op + 1, lit + 1;
    if lit' == MAX_LIT {
      ghost var o1 := out[..op'];
      ts' := CloseRun(data, ip + 1, lit', o1, ts);
      out[op' - lit' - 1] := (lit' - 1) as Byte;
      assert out[..op'] == o1[op' - lit' - 1 := (lit' - 1) as Byte];
      FullRunIsPaid(op' - lit' - 1, ip + 1);
      StartRun(data, ip + 1, out[..op'], out[op'], ts');
      assert out[..op' + 1] == out[..op'] + [out[op']];
      lit' := 0;
      op' := op' + 1;
    }
  }

  lemma OpenFacts(data: seq<Byte>, ip: nat, lit: nat, o: seq<Byte>, ts: seq<Token>)
    requires Open(data, ip, lit, o, ts)
    ensures lit <= ip <= |data| && lit < |o|
  {
  }

  /** The end of a literal run: its length is filled in, or the byte kept for it is given back. */
  method EndRun(input: array<Byte>, n: nat, ip: nat, out: array<Byte>, op: nat, lit: nat, ghost ts: seq<Token>)
    returns (op': nat, ghost ts': seq<Token>)
    requires input != out && n <= input.Length && op <= out.Length
    requires Open(input[..n], ip, lit, out[..op], ts) && lit <= MAX_LIT
    modifies out
    ensures op' == if lit == 0 then op - 1 else op
    ensures Closed(input[..n], ip, out[..op'], ts')
  {
    hide Open, Closed;
    ghost var data, o := input[..n], out[..op];
    OpenFacts(data, ip, lit, o, ts);
    ts' := CloseRun(data, ip, lit, o, ts);
    out[op - lit - 1] := (lit + 255) % 256;
    op' := if lit == 0 then op - 1 else op;
    assert out[..op'] == if lit == 0 then o[..op - 1] else o[op - lit - 1 := (lit - 1) as Byte];
  }

  /** The reference itself, and the byte kept for the next run. */
  method PutReference(input: array<Byte>, n: nat, ip: nat, ref: nat, octets: nat, out: array<Byte>, op: nat,
                      ghost ts: seq<Token>)
    returns (op': nat, ghost ts': seq<Token>)
    requires input != out && 3 <= octets <= MAX_REF && ip + octets <= n <= input.Length && op + 4 <= out.Length
    requires ref < ip && ip - ref - 1 < MAX_OFF && Same(input[..], ref, ip, octets)
    requires Closed(input[..n], ip, out[..op], ts)
    modifies out
    ensures op' == op + (if octets - 2 < 7 then 2 else 3) + 1
    ensures Open(input[..n], ip + octets, 0, out[..op'], ts')
  {
    hide Open, Closed, Encode, Same;
    ghost var data := input[..n];
    SameInPrefix(input[..], n, ref, ip, octets);
    ts' := AddReference(data, ip, ref, octets, out[..op], ts);
    op' := WriteReference(out, op, ip - ref - 1, octets);
    StartRun(data, ip + octets, out[..op'], out[op'], ts');
    assert out[..op' + 1] == out[..op'] + [out[op']];
    op' := op' + 1;
  }

  /** A match: the literal run before it is ended, the reference written, and a new run started. */
  method PutMatch(input: array<Byte>, n: nat, ip: nat, ref: nat, out: array<Byte>, op: nat, outLen: nat, lit: nat,
                  ghost ts: seq<Token>)
    returns (ok: bool, octets: nat, op': nat, ghost ts': seq<Token>)
    requires input != out && ip + 4 < n <= input.Length && op <= outLen + 1 <= out.Length
    requires ref < ip && ip - ref - 1 < MAX_OFF && Same(input[..], ref, ip, 3)
    requires InRun(input[..n], ip, lit, out[..op], ts)
    modifies out
    ensures ok ==>
              ip + octets <= n && 3 <= octets && op' <= outLen
              && InRun(input[..n], ip + octets, 0, out[..op'], ts')
    ensures ok ==> octets == Longest(input[..n], ref, ip, 3, Limit(n, ip)) && op' == PlusMatch(op, lit, octets)
    ensures ok <==> (if lit == 0 then op - 1 else op) + 4 < outLen
    ensures outLen >= n + n / 32 + 4 ==> ok
  {
    hide Open, Closed, Encode, Paid, Same, Longest, Limit;
    ghost var data := input[..n];
    OpenFacts(data, ip, lit, out[..op], ts);
    RoomForMatch(op, ip, lit, n);
    op', ts' := EndRun(input, n, ip, out, op, lit, ts);
    octets := 0;
    if op' + 3 + 1 >= outLen { return false, octets, op', ts'; }
    octets := MatchLength(input, n, ref, ip);
    MatchIsPaid(op - lit - 1, ip, lit, octets);
    op', ts' := PutReference(input, n, ip, ref, octets, out, op', ts');
    ok := true;
  }

  lemma RoomForMatch(op: nat, ip: nat, lit: nat, n: nat)
    requires lit <= ip && lit < op && Paid(op - lit - 1, ip - lit) && ip + 4 < n
    ensures op + 4 < n + n / 32 + 4
  {
  }

  lemma SameInPrefix(a: seq<Byte>, n: nat, ref: nat, ip: nat, len: nat)
    requires ref <= ip && ip + len <= n <= |a| && Same(a, ref, ip, len)
    ensures a[..n][ref..ref + len] == a[..n][ip..ip + len]
  {
    assert a[..n][ref..ref + len] == a[ref..ref + len];
    assert a[..n][ip..ip + len] == a[ip..ip + len];
  }

  /** The last bytes are literals; the last run is ended. */
  method PutTail(input: array<Byte>, n: nat, start: nat, out: array<Byte>, op: nat, outLen: nat, lit: nat,
                 ghost ts: seq<Token>)
    returns (r: nat, ghost ts': seq<Token>)
    requires input != out && 0 < n <= start + 2 && start <= n <= input.Length && op + 3 <= outLen < out.Length
    requires op > 0 && InRun(input[..n], start, lit, out[..op], ts)
    modifies out
    ensures 0 < r <= outLen && r <= n + n / 32 + 1 && Closed(input[..n], n, out[..r], ts')
    ensures r == Literals(op, lit, n - start)
  {
    hide Open, Closed;
    var ip: nat, op': nat, lit': nat := start, op, lit;
    ts' := ts;
    while ip < n
      invariant start <= ip <= n && op' > 0
      invariant op' == op + (ip - start) || (op' == op + (ip - start) + 1 && lit' <= ip - start)
      invariant InRun(input[..n], ip, lit', out[..op'], ts')
      invariant Literals(op', lit', n - ip) == Literals(op, lit, n - start)
    {
      op', lit', ts' := PutLiteral(input, n, ip, out, op', lit', ts');
      ip := ip + 1;
    }
    OpenFacts(input[..n], n, lit', out[..op'], ts');
    r, ts' := EndRun(input, n, n, out, op', lit', ts');
    SomethingWritten(input[..n], n, out[..r], ts');
  }

  lemma SomethingWritten(data: seq<Byte>, n: nat, o: seq<Byte>, ts: seq<Token>)
    requires Closed(data, n, o, ts) && n > 0
    ensures o != []
  {
    if ts != [] { assert |Encode(ts[0])| > 0; }
  }

  /** Entering two positions of a match into the table. */
  method Remember(input: array<Byte>, n: nat, at: nat, htab: array<int>) returns (hval: nat)
    requires at + 3 < n <= input.Length && n < U32 && htab.Length == HSIZE
    requires forall i :: 0 <= i < HSIZE ==> Address(htab[i])
    modifies htab
    ensures forall i :: 0 <= i < HSIZE ==> Address(htab[i])
    ensures (hval, htab[..]) == Remembered(input[..n], at, old(htab[..]))
  {
    hide Slot;
    hval := First(input[at], input[at + 1]);
    hval := Next(hval, input[at + 2]);
    htab[Slot(hval)] := at;
    hval := Next(hval, input[at + 3]);
    htab[Slot(hval)] := at + 1;
  }

  /** The size that the compressor is heading for. */
  ghost function Heading(data: seq<Byte>, ip: nat, hval: nat, table: seq<int>, op: nat, lit: nat): nat
    requires ip <= |data| && op > 0 && |table| == HSIZE
  {
    Finish(op, lit, Plan(data, ip, hval, table), |data| - ip)
  }

  /** One round of the main loop: a match, or one more literal. */
  method CompressRound(input: array<Byte>, n: nat, ip: nat, hval: nat, htab: array<int>, out: array<Byte>, op: nat,
                       outLen: nat, lit: nat, ghost ts: seq<Token>)
    returns (ok: bool, ip': nat, hval': nat, op': nat, lit': nat, ghost ts': seq<Token>)
    requires input != out && ip + 2 < n <= input.Length && n < U32 && 0 < op <= outLen + 1 <= out.Length
    requires htab.Length == HSIZE && forall i :: 0 <= i < HSIZE ==> Address(htab[i])
    requires InRun(input[..n], ip, lit, out[..op], ts)
    modifies out, htab
    ensures forall i :: 0 <= i < HSIZE ==> Address(htab[i])
    ensures ok ==> ip < ip' <= n && 0 < op' <= outLen + 1 && InRun(input[..n], ip', lit', out[..op'], ts')
    ensures var size := Heading(input[..n], ip, hval, old(htab[..]), op, lit);
      if ok then Heading(input[..n], ip', hval', htab[..], op', lit') == size else outLen < size + 4
    ensures !ok ==> outLen < n + n / 32 + 4
  {
    hide Open, Closed, Paid, Slot, Same, Plan, Finish, Longest, Usable, Next, Remembered, Limit, PlusMatch, InRun;
    ghost var data, table := input[..n], htab[..];
    InRunFacts(data, ip, lit, out[..op], ts);
    RoomForLiteral(op, ip, lit, n);
    FinishLower(data, ip, hval, table, op, lit);
    ip', op', lit', ts' := ip, op, lit, ts;
    hval' := Next(hval, input[ip + 2]);
    var hslot := Slot(hval');
    var ref := htab[hslot];
    htab[hslot] := ip;
    var off, match_ := IsMatch(input, n, ip, ref);
    if match_ {
      StepMatch(data, ip, hval, table, op, lit);
      MatchNeedsRoom(data, ip, hval, table, op, lit);
      var octets;
      ok, octets, op', ts' := PutMatch(input, n, ip, ref, out, op, outLen, lit, ts);
      if !ok { return; }
      ip', lit' := ip + octets, 0;
      InRunFacts(data, ip', lit', out[..op'], ts');
      if ip' + 2 >= n { return; }
      hval' := Remember(input, n, ip' - 2, htab);
    } else {
      StepLiteral(data, ip, hval, table, op, lit);
      if op >= outLen {
        ok := false;
        return;
      }
      ok := true;
      op', lit', ts' := PutLiteral(input, n, ip, out, op, lit, ts);
      ip' := ip + 1;
    }
  }

  lemma InRunFacts(data: seq<Byte>, ip: nat, lit: nat, o: seq<Byte>, ts: seq<Token>)
    requires InRun(data, ip, lit, o, ts)
    ensures lit <= ip <= |data| && lit < |o| && Paid(|o| - lit - 1, ip - lit)
  {
  }

  /** `lzf_compress`: 0 when the output does not fit. The output array has one byte more than
      `outLen`; the table holds anything at first. */
  method Compress(input: array<Byte>, n: nat, out: array<Byte>, outLen: nat, htab: array<int>) returns (r: nat)
    requires input != out && 2 <= n <= input.Length && n < U32 && outLen < out.Length
    requires htab.Length == HSIZE && forall i :: 0 <= i < HSIZE ==> Address(htab[i])
    modifies out, htab
    ensures r != 0 ==> r <= outLen && Expand(out[..r], 0, [], n) == Some(input[..n])
    ensures r <= n + n / 32 + 1
    ensures outLen >= n + n / 32 + 4 ==> r != 0
    ensures r != 0 ==> r == PackedSize(input[..n], old(htab[..]))
    ensures outLen >= PackedSize(input[..n], old(htab[..])) + 4 ==> r != 0
  {
    hide Open, Closed, Paid, Slot, Expand, Plan, Literals, Finish, InRun;
    ghost var data := input[..n];
    ghost var size := PackedSize(data, htab[..]);
    if n == 0 || outLen == 0 { return 0; }
    var ip: nat, op: nat, lit: nat := 0, 1, 0;
    ghost var ts: seq<Token> := [];
    NothingYet(data, out[..1]);
    var hval := First(input[0], input[1]);
    while ip + 2 < n
      invariant ip <= n && 0 < op <= outLen + 1
      invariant input[..n] == data && InRun(data, ip, lit, out[..op], ts)
      invariant forall i :: 0 <= i < HSIZE ==> Address(htab[i])
      invariant Heading(data, ip, hval, htab[..], op, lit) == size
      decreases n - ip
    {
      var ok;
      ok, ip, hval, op, lit, ts := CompressRound(input, n, ip, hval, htab, out, op, outLen, lit, ts);
      if !ok { return 0; }
    }
    PlanEnd(data, ip, hval, htab[..]);
    NoChoices(op, lit, n - ip);
    LiteralsLower(op, lit, n - ip);
    InRunFacts(data, ip, lit, out[..op], ts);
    RoomForTail(op, ip, lit, n);
    if op + 3 > outLen { return 0; }
    r, ts := PutTail(input, n, ip, out, op, outLen, lit, ts);
    ClosedExpands(data, out[..r], ts);
  }

  lemma NothingYet(data: seq<Byte>, o: seq<Byte>)
    requires |o| == 1
    ensures InRun(data, 0, 0, o, [])
  {
    assert o[..0] == [] && o[1..] == [] && data[..0] == [] && data[0..0] == [];
  }

  lemma RoomForLiteral(op: nat, ip: nat, lit: nat, n: nat)
    requires lit <= ip && lit < op && Paid(op - lit - 1, ip - lit) && ip + 2 < n
    ensures op < n + n / 32 + 4
  {
  }

  lemma RoomForTail(op: nat, ip: nat, lit: nat, n: nat)
    requires lit <= ip <= n && lit < op && Paid(op - lit - 1, ip - lit)
    ensures op + 3 <= n + n / 32 + 4
  {
  }

  lemma ClosedExpands(data: seq<Byte>, o: seq<Byte>, ts: seq<Token>)
    requires Closed(data, |data|, o, ts)
    ensures Expand(o, 0, [], |data|) == Some(data)
  {
    hide Encode, Emit, Round;
    assert data[..|data|] == data;
    ExpandEncoded([], ts, [], |data|);
    assert [] + EncodeAll(ts) == o;
  }

  /** Compressing and then decompressing into a buffer of the original length gives the data back. */
  method RoundTrip(input: array<Byte>, n: nat, packed: array<Byte>, outLen: nat, htab: array<int>, back: array<Byte>)
    returns (size: nat, restored: nat)
    requires input != packed && input != back && packed != back
    requires 2 <= n <= input.Length && n < U32 && outLen < packed.Length && n <= back.Length
    requires htab.Length == HSIZE && forall i :: 0 <= i < HSIZE ==> Address(htab[i])
    modifies packed, htab, back
    ensures size != 0 ==> restored == n && back[..n] == old(input[..n])
  {
    size := Compress(input, n, packed, outLen, htab);
    restored := 0;
    if size != 0 {
      restored := Decompress(packed, size, back, n);
    }
  }
}
