/** The LZF format: what a compressed string expands to, and the tokens a compressor emits. */
module LzfFormat {

  type Byte = n: nat | n < 256

  datatype Option<+T> = None | Some(value: T)

  const MAX_LIT: nat := 32
  const MAX_OFF: nat := 8192
  const MAX_REF: nat := 264

  // ---------------------------------------------------------------- expansion

  /** Copying `n` bytes from position `from` of the output to its end, one at a time, so that the
      source may run into the bytes being written. */
  function CopyBack(o: seq<Byte>, from: nat, n: nat): (r: seq<Byte>)
    requires from < |o|
    ensures |r| == |o| + n && o <= r
    decreases n
  {
    if n == 0 then o else CopyBack(o + [o[from]], from + 1, n - 1)
  }

  /** One round of `lzf_decompress` at position `ip`, with `o` written so far: the next position
      and the output, or None for the error returns. */
  function Round(src: seq<Byte>, ip: nat, o: seq<Byte>, outLen: nat): (r: Option<(nat, seq<Byte>)>)
    requires ip < |src|
    ensures r.Some? ==> ip < r.value.0 <= |src| && |o| < |r.value.1| <= outLen
  {
    var ctrl: nat := src[ip];
    if ctrl < 32 then
      var n: nat := ctrl + 1;
      if |o| + n > outLen || ip + 1 + n > |src| then None
      else Some((ip + 1 + n, o + src[ip + 1..ip + 1 + n]))
    else if ip + 1 >= |src| then None
    else
      var long := ctrl / 32 == 7;
      if long && ip + 2 >= |src| then None
      else
        var next: nat, p: nat := src[ip + 1], if long then ip + 2 else ip + 1;
        var len: nat := if long then 7 + next else ctrl / 32;
        var low: nat := src[p];
        var back: nat := (ctrl % 32) * 256 + low + 1;
        if |o| + len + 2 > outLen || back > |o| then None
        else Some((p + 1, CopyBack(o, |o| - back, len + 2)))
  }

  function Expand(src: seq<Byte>, ip: nat, o: seq<Byte>, outLen: nat): Option<seq<Byte>>
    requires ip <= |src|
    decreases |src| - ip
  {
    if ip == |src| then Some(o)
    else
      match Round(src, ip, o, outLen)
      case None => None
      case Some((next, o')) => Expand(src, next, o', outLen)
  }

  /** An expansion without an error emits something for every token. */
  lemma {:induction false} ExpandGrows(src: seq<Byte>, ip: nat, o: seq<Byte>, outLen: nat)
    requires ip <= |src| && Expand(src, ip, o, outLen).Some?
    ensures |Expand(src, ip, o, outLen).value| >= |o| + if ip < |src| then 1 else 0
    decreases |src| - ip
  {
    hide Round;
    if ip < |src| {
      var r := Round(src, ip, o, outLen).value;
      ExpandGrows(src, r.0, r.1, outLen);
    }
  }

  // ---------------------------------------------------------------- tokens

  /** A literal run, or a reference `off + 1` bytes back of `len + 2` bytes. */
  datatype Token = Lit(bytes: seq<Byte>) | Ref(off: nat, len: nat)

  predicate Encodable(t: Token) {
    match t
    case Lit(bytes) => 1 <= |bytes| <= MAX_LIT
    case Ref(off, len) => off < MAX_OFF && 1 <= len <= MAX_REF - 2
  }

  function Encode(t: Token): seq<Byte>
    requires Encodable(t)
  {
    match t
    case Lit(bytes) => [(|bytes| - 1) as Byte] + bytes
    case Ref(off, len) =>
      if len < 7 then [off / 256 + len * 32, off % 256]
      else [off / 256 + 7 * 32, len - 7, off % 256]
  }

  ghost predicate AllEncodable(ts: seq<Token>) {
    forall i :: 0 <= i < |ts| ==> Encodable(ts[i])
  }

  function EncodeAll(ts: seq<Token>): seq<Byte>
    requires AllEncodable(ts)
  {
    if ts == [] then [] else Encode(ts[0]) + EncodeAll(ts[1..])
  }

  predicate Resolvable(o: seq<Byte>, t: Token) {
    t.Ref? ==> t.off < |o|
  }

  function Emit(o: seq<Byte>, t: Token): (r: seq<Byte>)
    requires Resolvable(o, t)
    ensures o <= r
  {
    match t
    case Lit(bytes) => o + bytes
    case Ref(off, len) => CopyBack(o, |o| - off - 1, len + 2)
  }

  /** What a token sequence means, if every reference points into what came before it. */
  function Meaning(o: seq<Byte>, ts: seq<Token>): (r: Option<seq<Byte>>)
    ensures r.Some? ==> o <= r.value
    decreases |ts|
  {
    if ts == [] then Some(o)
    else if Resolvable(o, ts[0]) then Meaning(Emit(o, ts[0]), ts[1..])
    else None
  }

  lemma {:induction false} EncodeAllAppend(a: seq<Token>, t: Token)
    requires AllEncodable(a) && Encodable(t)
    ensures AllEncodable(a + [t]) && EncodeAll(a + [t]) == EncodeAll(a) + Encode(t)
  {
    hide Encode, Encodable;
    if a == [] {
      assert a + [t] == [t];
      assert EncodeAll([t]) == Encode(t) + EncodeAll([t][1..]);
    } else {
      EncodeAllAppend(a[1..], t);
      assert (a + [t])[1..] == a[1..] + [t] && (a + [t])[0] == a[0];
      assert EncodeAll(a + [t]) == Encode(a[0]) + (EncodeAll(a[1..]) + Encode(t));
    }
  }

  lemma {:induction false} MeaningAppend(o: seq<Byte>, a: seq<Token>, t: Token)
    requires Meaning(o, a).Some? && Resolvable(Meaning(o, a).value, t)
    ensures Meaning(o, a + [t]) == Some(Emit(Meaning(o, a).value, t))
    decreases |a|
  {
    if a == [] {
      assert a + [t] == [t];
      assert Meaning(Emit(o, t), []) == Some(Emit(o, t));
    } else {
      assert (a + [t])[0] == a[0] && (a + [t])[1..] == a[1..] + [t];
      MeaningAppend(Emit(o, a[0]), a[1..], t);
    }
  }

  /** One token is read back. */
  lemma ExpandToken(pre: seq<Byte>, t: Token, rest: seq<Byte>, o: seq<Byte>, outLen: nat)
    requires Encodable(t) && Resolvable(o, t) && |Emit(o, t)| <= outLen
    ensures |Encode(t)| > 0
    ensures Round(pre + Encode(t) + rest, |pre|, o, outLen) == Some((|pre| + |Encode(t)|, Emit(o, t)))
  {
    hide Round;
    var src := pre + Encode(t) + rest;
    match t
    case Lit(bytes) => ExpandLit(pre, bytes, rest, o, outLen, src);
    case Ref(off, len) => ExpandRef(pre, off, len, rest, o, outLen, src);
  }

  lemma ExpandLit(pre: seq<Byte>, bytes: seq<Byte>, rest: seq<Byte>, o: seq<Byte>, outLen: nat, src: seq<Byte>)
    requires Encodable(Lit(bytes)) && |o + bytes| <= outLen && src == pre + Encode(Lit(bytes)) + rest
    ensures Round(src, |pre|, o, outLen) == Some((|pre| + |Encode(Lit(bytes))|, o + bytes))
  {
    hide CopyBack;
    var ip, code := |pre|, Encode(Lit(bytes));
    assert |src| >= ip + |code|;
    assert src[ip] == code[0];
    assert src[ip + 1..ip + 1 + |bytes|] == bytes;
  }

  lemma ControlByte(ctrl: nat, high: nat, len: nat)
    requires high < 32 && 1 <= len <= 7 && ctrl == high + len * 32
    ensures ctrl / 32 == len && ctrl % 32 == high && ctrl >= 32
  {
  }

  /** A reference whose bytes have been taken apart. */
  lemma RoundRef(src: seq<Byte>, ip: nat, o: seq<Byte>, outLen: nat, high: nat, low: nat, len: nat)
    requires high < 32 && 1 <= len && ip + (if len < 7 then 2 else 3) <= |src|
    requires src[ip] / 32 == (if len < 7 then len else 7) && src[ip] % 32 == high && src[ip] >= 32
    requires if len < 7 then src[ip + 1] == low else src[ip + 1] == len - 7 && src[ip + 2] == low
    requires high * 256 + low < |o| && |o| + len + 2 <= outLen
    ensures Round(src, ip, o, outLen)
         == Some((ip + if len < 7 then 2 else 3, CopyBack(o, |o| - (high * 256 + low) - 1, len + 2)))
  {
    hide CopyBack;
  }

  lemma CodeAt(pre: seq<Byte>, code: seq<Byte>, rest: seq<Byte>)
    ensures var src := pre + code + rest;
      && |src| >= |pre| + |code|
      && (|code| > 0 ==> src[|pre|] == code[0]) && (|code| > 1 ==> src[|pre| + 1] == code[1])
      && (|code| > 2 ==> src[|pre| + 2] == code[2])
  {
  }

  lemma SplitOffset(off: nat, len: nat) returns (high: nat, low: nat)
    requires Encodable(Ref(off, len))
    ensures off == high * 256 + low && high < 32 && low < 256
    ensures Encode(Ref(off, len)) == if len < 7 then [high + len * 32, low] else [high + 7 * 32, len - 7, low]
  {
    high, low := off / 256, off % 256;
  }

  lemma ExpandRef(pre: seq<Byte>, off: nat, len: nat, rest: seq<Byte>, o: seq<Byte>, outLen: nat, src: seq<Byte>)
    requires Encodable(Ref(off, len)) && off < |o| && |o| + len + 2 <= outLen
      && src == pre + Encode(Ref(off, len)) + rest
    ensures Round(src, |pre|, o, outLen)
         == Some((|pre| + |Encode(Ref(off, len))|, CopyBack(o, |o| - off - 1, len + 2)))
  {
    hide CopyBack, Round, Encode;
    var high, low := SplitOffset(off, len);
    var code := Encode(Ref(off, len));
    CodeAt(pre, code, rest);
    if len < 7 {
      assert |code| == 2;
      ControlByte(src[|pre|], high, len);
    } else {
      assert |code| == 3;
      ControlByte(src[|pre|], high, 7);
    }
    RoundRef(src, |pre|, o, outLen, high, low, len);
  }

  /** Expanding the encoding of a token sequence gives its meaning. */
  lemma {:induction false} ExpandEncoded(pre: seq<Byte>, ts: seq<Token>, o: seq<Byte>, outLen: nat)
    requires AllEncodable(ts) && Meaning(o, ts).Some? && |Meaning(o, ts).value| <= outLen
    ensures Expand(pre + EncodeAll(ts), |pre|, o, outLen) == Meaning(o, ts)
    decreases |ts|
  {
    hide Round, Encode, Emit;
    if ts == [] {
      assert pre + EncodeAll(ts) == pre;
      ExpandEnd(pre, o, outLen);
    } else {
      var t, o' := ts[0], Emit(o, ts[0]);
      ExpandToken(pre, t, EncodeAll(ts[1..]), o, outLen);
      ExpandEncoded(pre + Encode(t), ts[1..], o', outLen);
      assert pre + EncodeAll(ts) == pre + Encode(t) + EncodeAll(ts[1..]);
    }
  }

  lemma ExpandEnd(src: seq<Byte>, o: seq<Byte>, outLen: nat)
    ensures Expand(src, |src|, o, outLen) == Some(o)
  {
  }

  // ---------------------------------------------------------------- what the decompressor accepts

  /** A round that succeeds has read one token. */
  lemma DecodeToken(src: seq<Byte>, ip: nat, o: seq<Byte>, outLen: nat) returns (t: Token)
    requires ip < |src| && Round(src, ip, o, outLen).Some?
    ensures Encodable(t) && Resolvable(o, t)
    ensures var (next, o') := Round(src, ip, o, outLen).value; src[ip..next] == Encode(t) && o' == Emit(o, t)
  {
    hide Round, Encode, CopyBack;
    if src[ip] < 32 {
      t := DecodeLit(src, ip, o, outLen);
    } else {
      var high, len, low := DecodeRef(src, ip, o, outLen);
      t := Ref(high * 256 + low, len);
      EncodeRef(high, low, len);
    }
  }

  lemma DecodeLit(src: seq<Byte>, ip: nat, o: seq<Byte>, outLen: nat) returns (t: Token)
    requires ip < |src| && src[ip] < 32 && Round(src, ip, o, outLen).Some?
    ensures t.Lit? && Encodable(t)
    ensures var (next, o') := Round(src, ip, o, outLen).value; src[ip..next] == Encode(t) && o' == o + t.bytes
  {
    var ctrl: nat := src[ip];
    t := Lit(src[ip + 1..ip + 2 + ctrl]);
    assert src[ip..ip + 2 + ctrl] == [src[ip]] + src[ip + 1..ip + 2 + ctrl];
  }

  /** The parts of a reference. */
  lemma DecodeRef(src: seq<Byte>, ip: nat, o: seq<Byte>, outLen: nat) returns (high: nat, len: nat, low: Byte)
    requires ip < |src| && src[ip] >= 32 && Round(src, ip, o, outLen).Some?
    ensures high < 32 && 1 <= len <= MAX_REF - 2 && high * 256 + low < |o|
    ensures var (next, o') := Round(src, ip, o, outLen).value;
      && o' == CopyBack(o, |o| - (high * 256 + low) - 1, len + 2)
      && src[ip..next] == if len < 7 then [high + len * 32, low] else [high + 224, len - 7, low]
  {
    hide CopyBack;
    var ctrl: nat := src[ip];
    high := ctrl % 32;
    if ctrl / 32 == 7 {
      var next: nat := src[ip + 1];
      len, low := 7 + next, src[ip + 2];
      assert src[ip..ip + 3] == [src[ip], src[ip + 1], src[ip + 2]];
    } else {
      len, low := ctrl / 32, src[ip + 1];
      assert src[ip..ip + 2] == [src[ip], src[ip + 1]];
    }
  }

  lemma EncodeRef(high: nat, low: Byte, len: nat)
    requires high < 32 && 1 <= len <= MAX_REF - 2
    ensures Encodable(Ref(high * 256 + low, len))
    ensures Encode(Ref(high * 256 + low, len))
         == if len < 7 then [high + len * 32, low] else [high + 224, len - 7, low]
  {
    OffsetParts(high, low);
  }

  lemma OffsetParts(high: nat, low: Byte)
    requires high < 32
    ensures (high * 256 + low) / 256 == high && (high * 256 + low) % 256 == low && high * 256 + low < MAX_OFF
  {
  }

  lemma {:induction false} DecodeTokens(src: seq<Byte>, ip: nat, o: seq<Byte>, outLen: nat) returns (ts: seq<Token>)
    requires ip <= |src| && Expand(src, ip, o, outLen).Some? && |o| <= outLen
    ensures AllEncodable(ts) && src[ip..] == EncodeAll(ts) && Meaning(o, ts) == Expand(src, ip, o, outLen)
    ensures |Expand(src, ip, o, outLen).value| <= outLen
    decreases |src| - ip
  {
    hide Round, Encode, Emit, Encodable;
    if ip == |src| {
      ts := [];
    } else {
      var t := DecodeToken(src, ip, o, outLen);
      var (next, o') := Round(src, ip, o, outLen).value;
      var rest := DecodeTokens(src, next, o', outLen);
      ts := [t] + rest;
      assert ts[1..] == rest;
      assert src[ip..] == src[ip..next] + src[next..];
    }
  }

  /** Some tokens encode to `src` and stand for at most `outLen` bytes. */
  ghost predicate Encoding(src: seq<Byte>, outLen: nat) {
    exists ts :: AllEncodable(ts) && src == EncodeAll(ts) && Meaning([], ts).Some? && |Meaning([], ts).value| <= outLen
  }

  /** The decompressor accepts exactly the encodings of tokens that fit the output: a cut-off run or
      reference, a reference to before the start, or too much output is an error. */
  lemma AcceptsEncodings(src: seq<Byte>, outLen: nat)
    ensures Expand(src, 0, [], outLen).Some? <==> Encoding(src, outLen)
  {
    hide Round, Encode, Emit;
    if Expand(src, 0, [], outLen).Some? {
      var ts := DecodeTokens(src, 0, [], outLen);
      assert src[0..] == src;
    }
    if Encoding(src, outLen) {
      var ts :| AllEncodable(ts) && src == EncodeAll(ts)
             && Meaning([], ts).Some? && |Meaning([], ts).value| <= outLen;
      ExpandEncoded([], ts, [], outLen);
      assert [] + src == src;
    }
  }

  // ---------------------------------------------------------------- matches

  /** If the next `n` bytes of the data repeat those at `from`, copying back produces them, even
      when the two stretches overlap. */
  lemma {:induction false} CopyBackMatch(data: seq<Byte>, from: nat, ip: nat, n: nat)
    requires from < ip && ip + n <= |data|
    requires data[from..from + n] == data[ip..ip + n]
    ensures CopyBack(data[..ip], from, n) == data[..ip + n]
    decreases n
  {
    if n > 0 {
      assert data[from] == data[from..from + n][0] == data[ip..ip + n][0] == data[ip];
      assert data[..ip] + [data[..ip][from]] == data[..ip + 1];
      assert data[from + 1..from + n] == data[from..from + n][1..];
      assert data[ip + 1..ip + n] == data[ip..ip + n][1..];
      CopyBackMatch(data, from + 1, ip + 1, n - 1);
    }
  }
}
