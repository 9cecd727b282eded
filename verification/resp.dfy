/** The request protocol: decimal numbers, and the bytes `catAppendOnlyGenericCommand` prints for
    an argument vector. Characters stand for bytes. */
module Resp {

  datatype Option<+T> = None | Some(value: T)

  const CRLF: string := "\r\n"
  const LLONG_MAX: nat := 0x7FFF_FFFF_FFFF_FFFF
  const LLONG_MIN: int := -0x8000_0000_0000_0000
  const ULLONG_MAX: nat := 0xFFFF_FFFF_FFFF_FFFF

  // ---------------------------------------------------------------- decimal numbers

  predicate IsDigit(c: char) {
    '0' <= c <= '9'
  }

  function DigitChar(d: nat): (c: char)
    requires d < 10
    ensures IsDigit(c) && DigitVal(c) == d
  {
    '0' + d as char
  }

  function DigitVal(c: char): (d: nat)
    requires IsDigit(c)
    ensures d < 10
  {
    (c - '0') as nat
  }

  /** `ll2string` on a non-negative number. */
  function Dec(n: nat): (s: string)
    ensures s != []
    ensures forall i :: 0 <= i < |s| ==> IsDigit(s[i])
  {
    if n < 10 then [DigitChar(n)] else Dec(n / 10) + [DigitChar(n % 10)]
  }

  predicate AllDigits(s: string) {
    forall i :: 0 <= i < |s| ==> IsDigit(s[i])
  }

  function Val(s: string): nat
    requires AllDigits(s)
  {
    if s == [] then 0 else 10 * Val(s[..|s| - 1]) + DigitVal(s[|s| - 1])
  }

  /** A number the way it is printed: no sign, no superfluous leading zero. */
  predicate Plain(s: string) {
    s != [] && AllDigits(s) && s[0] != '0'
  }

  /** `string2ll`. */
  function Parse(s: string): Option<int> {
    if s == "0" then Some(0)
    else if Plain(s) && Val(s) <= LLONG_MAX then Some(Val(s))
    else if s != [] && s[0] == '-' && Plain(s[1..]) && Val(s[1..]) <= LLONG_MAX + 1 then Some(-(Val(s[1..]) as int))
    else None
  }

  lemma {:induction false} DecVal(n: nat)
    ensures Val(Dec(n)) == n
    ensures n > 0 ==> Dec(n)[0] != '0'
  {
    if n >= 10 {
      DecVal(n / 10);
      assert Dec(n)[..|Dec(n)| - 1] == Dec(n / 10);
    } else {
      assert Dec(n)[..0] == [];
    }
  }

  /** Parsing what was printed gives the number back. */
  lemma ParseDec(n: nat)
    requires n <= LLONG_MAX
    ensures Parse(Dec(n)) == Some(n)
  {
    DecVal(n);
  }

  /** The printed form of a number with its sign. */
  function DecInt(n: int): string {
    if n < 0 then "-" + Dec(-n) else Dec(n)
  }

  /** A plain string of digits is what its value prints as. */
  lemma {:induction false} ValDec(s: string)
    requires Plain(s)
    ensures Val(s) > 0 && Dec(Val(s)) == s
    decreases |s|
  {
    var p, d := s[..|s| - 1], DigitVal(s[|s| - 1]);
    assert DigitChar(d) == s[|s| - 1];
    assert s == p + [DigitChar(d)];
    if |s| == 1 {
      assert Val(p) == 0;
    } else {
      ValDec(p);
      assert Val(s) / 10 == Val(p) && Val(s) % 10 == d;
    }
  }

  lemma DecZero()
    ensures Dec(0) == "0"
  {
  }

  /** What a number is printed as is parsed as that number. */
  lemma ParsePrinted(n: int)
    requires LLONG_MIN <= n <= LLONG_MAX
    ensures Parse(DecInt(n)) == Some(n)
  {
    hide Dec, Val;
    var s := DecInt(n);
    if n < 0 {
      DecVal(-n);
      assert s[0] == '-' && s[1..] == Dec(-n) && Plain(s[1..]) && !IsDigit(s[0]);
    } else if n > 0 {
      DecVal(n);
      assert Plain(s) && s != "0";
    } else {
      DecZero();
    }
  }

  /** What is parsed as a number is what it is printed as. */
  lemma ParsedIsPrinted(s: string)
    requires Parse(s).Some?
    ensures LLONG_MIN <= Parse(s).value <= LLONG_MAX && s == DecInt(Parse(s).value)
  {
    hide Dec, Val;
    if s == "0" {
      DecZero();
    } else if Plain(s) && Val(s) <= LLONG_MAX {
      ValDec(s);
    } else {
      ValDec(s[1..]);
      assert s == "-" + s[1..];
    }
  }

  /** The parser inverts the printer and nothing else: it accepts exactly the printed forms of 64-bit
      signed numbers, negative ones included. */
  lemma ParseExact(s: string, n: int)
    ensures Parse(s) == Some(n) <==> LLONG_MIN <= n <= LLONG_MAX && s == DecInt(n)
  {
    hide Parse, DecInt;
    if Parse(s).Some? { ParsedIsPrinted(s); }
    if LLONG_MIN <= n <= LLONG_MAX { ParsePrinted(n); }
  }

  lemma {:induction false} DecLength(n: nat, k: nat, bound: nat)
    requires k > 0 && bound == Pow10(k) && n < bound
    ensures |Dec(n)| <= k
    decreases k
  {
    if n >= 10 {
      DecLength(n / 10, k - 1, Pow10(k - 1));
    }
  }

  function Pow10(k: nat): nat {
    if k == 0 then 1 else 10 * Pow10(k - 1)
  }

  /** The loop of `string2ll`, with its overflow checks on an unsigned accumulator. */
  method String2ll(s: string) returns (r: Option<int>)
    ensures r == Parse(s)
  {
    if |s| == 0 { return None; }
    if |s| == 1 && s[0] == '0' { return Some(0); }
    var negative, start := false, 0;
    if s[0] == '-' {
      negative, start := true, 1;
      if |s| == 1 { return None; }
    }
    ghost var t := s[start..];
    if !('1' <= s[start] <= '9') {
      assert t[0] == s[start];
      return None;
    }
    var v, plen, ok := Accumulate(s, start);
    if !ok {
      Overflow(s, start, plen);
      return None;
    }
    if plen < |s| {
      assert t[plen - start] == s[plen];
      return None;
    }
    assert t == s[start..plen];
    if negative {
      if v > LLONG_MAX + 1 { return None; }
      return Some(-(v as int));
    }
    assert t == s;
    if v > LLONG_MAX { return None; }
    return Some(v);
  }

  /** The digits from `start`, until the first other byte or until the accumulator would overflow. */
  method Accumulate(s: string, start: nat) returns (v: nat, plen: nat, ok: bool)
    requires start < |s| && IsDigit(s[start])
    ensures start < plen <= |s| && AllDigits(s[start..plen])
    ensures ok ==> v == Val(s[start..plen]) && (plen < |s| ==> !IsDigit(s[plen]))
    ensures !ok ==> Val(s[start..plen]) > ULLONG_MAX
  {
    v := DigitVal(s[start]);
    plen := start + 1;
    assert s[start..plen][..0] == [];
    while plen < |s| && IsDigit(s[plen])
      invariant start < plen <= |s|
      invariant AllDigits(s[start..plen]) && v == Val(s[start..plen]) <= ULLONG_MAX
      decreases |s| - plen
    {
      assert s[start..plen + 1][..plen - start] == s[start..plen];
      assert Val(s[start..plen + 1]) == 10 * v + DigitVal(s[plen]);
      if v > ULLONG_MAX / 10 { return v, plen + 1, false; }
      v := v * 10;
      if v > ULLONG_MAX - DigitVal(s[plen]) { return v, plen + 1, false; }
      v := v + DigitVal(s[plen]);
      plen := plen + 1;
    }
    ok := true;
  }

  /** Once a prefix of the digits is out of range the whole number is. */
  lemma Overflow(s: string, start: nat, end: nat)
    requires start <= 1 && start < end <= |s|
    requires start == 1 <==> s[0] == '-'
    requires AllDigits(s[start..end]) && Val(s[start..end]) > ULLONG_MAX
    ensures Parse(s) == None
  {
    var t := s[start..];
    assert t[..end - start] == s[start..end];
    if AllDigits(t) { ValPrefix(t, end - start); }
    if start == 0 { assert t == s; }
    ZeroIsSmall(s, start, end);
  }

  lemma ZeroIsSmall(s: string, start: nat, end: nat)
    requires start <= 1 && start < end <= |s| && AllDigits(s[start..end])
    ensures s == "0" ==> Val(s[start..end]) == 0
  {
    assert s == "0" ==> s[start..end] == "0";
    assert "0"[..0] == [] && Val("0") == 0;
  }

  lemma {:induction false} ValPrefix(s: string, n: nat)
    requires AllDigits(s) && n <= |s|
    ensures Val(s[..n]) <= Val(s)
    decreases |s|
  {
    if n < |s| {
      var p := s[..|s| - 1];
      ValPrefix(p, n);
      assert p[..n] == s[..n];
    } else {
      assert s[..n] == s;
    }
  }

  // ---------------------------------------------------------------- printing

  function Header(mark: char, n: nat): string {
    [mark] + Dec(n) + CRLF
  }

  function PrintArgs(args: seq<string>): string {
    if args == [] then "" else Header('$', |args[0]|) + args[0] + CRLF + PrintArgs(args[1..])
  }

  function Print(args: seq<string>): string {
    Header('*', |args|) + PrintArgs(args)
  }

  function PrintAll(cmds: seq<seq<string>>): string {
    if cmds == [] then "" else Print(cmds[0]) + PrintAll(cmds[1..])
  }

  lemma NextArgument(r: string, argv: seq<string>, j: nat)
    requires j < |argv|
    ensures r + Header('$', |argv[j]|) + argv[j] + CRLF + PrintArgs(argv[j + 1..]) == r + PrintArgs(argv[j..])
  {
    hide Header;
    assert argv[j..][1..] == argv[j + 1..];
    assert PrintArgs(argv[j..]) == Header('$', |argv[j]|) + argv[j] + CRLF + PrintArgs(argv[j + 1..]);
  }

  lemma NoArguments()
    ensures PrintArgs([]) == ""
  {
  }

  /** `catAppendOnlyGenericCommand`. */
  method CatGenericCommand(dst: string, argv: seq<string>) returns (r: string)
    ensures r == dst + Print(argv)
  {
    hide Header, PrintArgs;
    r := dst + Header('*', |argv|);
    var j := 0;
    assert argv[0..] == argv;
    while j < |argv|
      invariant j <= |argv|
      invariant r + PrintArgs(argv[j..]) == dst + Print(argv)
    {
      ghost var before := r;
      r := r + Header('$', |argv[j]|);
      r := r + argv[j];
      r := r + CRLF;
      NextArgument(before, argv, j);
      j := j + 1;
    }
    assert argv[j..] == [];
    NoArguments();
  }

  lemma {:induction false} PrintAllAppend(cmds: seq<seq<string>>, more: seq<seq<string>>)
    ensures PrintAll(cmds + more) == PrintAll(cmds) + PrintAll(more)
  {
    if cmds == [] {
      assert cmds + more == more;
    } else {
      assert (cmds + more)[1..] == cmds[1..] + more;
      PrintAllAppend(cmds[1..], more);
    }
  }
}
