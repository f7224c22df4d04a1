/**
 * The scanning primitives of scan/src/lib.rs.
 *
 * A Scanner owns a byte cursor (Input.Stdin) and reads values from it with
 * one byte of lookahead: every primitive pushes back the one byte it read
 * too far. The contracts describe the cursor as a Reader: whether the line
 * has ended and the bytes not yet taken. `Ahead()` is what the cursor will
 * still deliver, the bytes before the next newline; each primitive returns a
 * value computed from `Ahead()` and leaves `Take(k, ended)`: k bytes taken,
 * and, when `ended`, one more read that failed at the end of the line.
 */
module Scan {
  import opened Wrappers
  import opened Bytes
  import opened Utf8
  import opened Input

  /** `is_whitespace`: HT, LF, VT, FF, CR and SPACE. */
  function IsWhitespace(b: byte): (r: bool)
    ensures r <==> b == 32 || 9 <= b <= 13
  {
    b == 9 || b == 10 || b == 11 || b == 12 || b == 13 || b == 32
  }

  /** The length of the longest prefix of `v` whose bytes all satisfy `p`. */
  function PrefixWhile(v: seq<byte>, p: byte -> bool): (n: nat)
    ensures n <= |v|
    ensures forall k :: 0 <= k < n ==> p(v[k])
    ensures n < |v| ==> !p(v[n])
  {
    if v == [] || !p(v[0]) then 0 else 1 + PrefixWhile(v[1..], p)
  }

  // ---------------------------------------------------------------------
  // Integers
  // ---------------------------------------------------------------------

  /** The radix of an integer, as `classify` selects it. */
  datatype IntType = Binary | Octal | Decimal | Hex

  function Radix(ty: IntType): nat
  {
    match ty
    case Binary => 2
    case Octal => 8
    case Decimal => 10
    case Hex => 16
  }

  /** The byte patterns of the `digits!` invocations: the value of `b` as a digit of radix `ty`, if it is one. */
  function DigitValue(ty: IntType, b: byte): (d: Option<nat>)
    ensures d.Some? ==> d.value < Radix(ty)
  {
    match ty
    case Binary => if '0' as int <= b <= '1' as int then Some(b - '0' as int) else None
    case Octal => if '0' as int <= b <= '7' as int then Some(b - '0' as int) else None
    case Decimal => if '0' as int <= b <= '9' as int then Some(b - '0' as int) else None
    case Hex =>
      if '0' as int <= b <= '9' as int then Some(b - '0' as int)
      else if 'a' as int <= b <= 'f' as int then Some(b - ('a' as int - 10))
      else if 'A' as int <= b <= 'F' as int then Some(b - ('A' as int - 10))
      else None
  }

  predicate AllDigits(ty: IntType, ds: seq<byte>)
  {
    forall k :: 0 <= k < |ds| ==> DigitValue(ty, ds[k]).Some?
  }

  /** How many digits of radix `ty` the bytes `v` start with. */
  function DigitRun(ty: IntType, v: seq<byte>): (n: nat)
    ensures n <= |v| && AllDigits(ty, v[..n])
    ensures n < |v| ==> DigitValue(ty, v[n]).None?
  {
    PrefixWhile(v, (b: byte) => DigitValue(ty, b).Some?)
  }

  /** The contract of DigitRun determines it. */
  lemma DigitRunUnique(ty: IntType, v: seq<byte>, n: nat)
    requires n <= |v| && AllDigits(ty, v[..n]) && (n < |v| ==> DigitValue(ty, v[n]).None?)
    ensures DigitRun(ty, v) == n
  {
  }

  /** The number the digits `ds` denote in radix `ty`, most significant first. */
  function Value(ty: IntType, ds: seq<byte>): nat
    requires AllDigits(ty, ds)
  {
    if ds == [] then 0
    else Value(ty, ds[..|ds| - 1]) * Radix(ty) + DigitValue(ty, ds[|ds| - 1]).value
  }

  /** `res * base + digit` on `u64`, which wraps around modulo 2^64. */
  function MulAdd(res: u64, base: nat, digit: nat): u64
  {
    (res * base + digit) % U64_MODULUS
  }

  /** The `u64` accumulator of `digits!` after the digits `ds`, one MulAdd per digit. */
  function Accumulate(ty: IntType, ds: seq<byte>): u64
    requires AllDigits(ty, ds)
  {
    if ds == [] then 0
    else MulAdd(Accumulate(ty, ds[..|ds| - 1]), Radix(ty), DigitValue(ty, ds[|ds| - 1]).value)
  }

  /** Accumulating one more digit of `v`. */
  lemma AccumulateNext(ty: IntType, v: seq<byte>, i: nat)
    requires i < |v| && AllDigits(ty, v[..i]) && DigitValue(ty, v[i]).Some?
    ensures AllDigits(ty, v[..i + 1])
    ensures Accumulate(ty, v[..i + 1]) == MulAdd(Accumulate(ty, v[..i]), Radix(ty), DigitValue(ty, v[i]).value)
  {
    assert v[..i + 1][..i] == v[..i];
  }

  lemma MulAtLeast(k: int, m: int)
    requires k >= 1 && m > 0
    ensures k * m >= m
  {
  }

  /** Euclidean remainder is unique: x = a*m + r with 0 <= r < m fixes x % m. */
  lemma ModUnique(x: int, m: int, a: int, r: int)
    requires m > 0 && 0 <= r < m && x == a * m + r
    ensures x % m == r
  {
    var a' := x / m;
    assert x == a' * m + x % m;
    if a > a' {
      MulAtLeast(a - a', m);
    } else if a < a' {
      MulAtLeast(a' - a, m);
    }
  }

  lemma ModOfMultipleAdded(y: int, q: int, m: int)
    requires m > 0
    ensures (y + q * m) % m == y % m
  {
    assert y == (y / m) * m + y % m;
    assert y + q * m == (y / m + q) * m + y % m;
    ModUnique(y + q * m, m, y / m + q, y % m);
  }

  /** One digit step commutes with reduction modulo m. */
  lemma ModStep(v: int, radix: int, d: int, m: int)
    requires m > 0
    ensures ((v % m) * radix + d) % m == (v * radix + d) % m
  {
    var q := v / m;
    assert v == q * m + v % m;
    assert v * radix + d == ((v % m) * radix + d) + (q * radix) * m;
    ModOfMultipleAdded((v % m) * radix + d, q * radix, m);
  }

  /** The accumulator is the value of the digits modulo 2^64: exact for every value a `u64` holds. */
  lemma {:induction false} AccumulateWraps(ty: IntType, ds: seq<byte>)
    requires AllDigits(ty, ds)
    ensures Accumulate(ty, ds) == Value(ty, ds) % U64_MODULUS
  {
    if ds != [] {
      var init := ds[..|ds| - 1];
      assert AllDigits(ty, init);
      AccumulateWraps(ty, init);
      ModStep(Value(ty, init), Radix(ty), DigitValue(ty, ds[|ds| - 1]).value, U64_MODULUS);
    }
  }

  /**
   * The radix an integer is read in, the number of bytes its prefix takes, and
   * whether that prefix was a bare leading `0` (which then reads as 0 when no
   * digit follows). A leading `0` alone does not mean octal: "017" is decimal.
   */
  function Classification(v: seq<byte>): (r: (IntType, bool, nat))
    ensures r.2 <= 2 && r.2 <= |v|
    ensures r.2 == 0 <==> v == [] || v[0] != '0' as int
    ensures r.2 == 2 <==> r.0 != Decimal
    ensures r.1 <==> r.2 == 1
  {
    if v == [] || v[0] != '0' as int then (Decimal, false, 0)
    else if |v| == 1 then (Decimal, true, 1)
    else if v[1] == 'x' as int || v[1] == 'X' as int then (Hex, false, 2)
    else if v[1] == 'o' as int || v[1] == 'O' as int then (Octal, false, 2)
    else if v[1] == 'b' as int || v[1] == 'B' as int then (Binary, false, 2)
    else (Decimal, true, 1)
  }

  /** What `unsigned_integer` reads from `v`, and how many bytes it takes. */
  function UnsignedValue(v: seq<byte>): (u: (Option<u64>, nat))
    ensures u.1 <= |v|
  {
    var c := Classification(v);
    var n := DigitRun(c.0, v[c.2..]);
    (if n > 0 then Some(Accumulate(c.0, v[c.2..][..n])) else if c.1 then Some(0) else None, c.2 + n)
  }

  /** The sign `sign` reads from `v`, and how many bytes it takes. */
  function SignOf(v: seq<byte>): (r: (int, nat))
    ensures r.0 == 1 || r.0 == -1
    ensures r.1 <= 1 && r.1 <= |v|
  {
    if v != [] && v[0] == '+' as int then (1, 1)
    else if v != [] && v[0] == '-' as int then (-1, 1)
    else (1, 0)
  }

  /** `sign` takes one byte exactly when it is a sign, and answers -1 exactly for `-`. */
  lemma SignOfTakes(v: seq<byte>)
    ensures SignOf(v).1 == 1 <==> v != [] && (v[0] == '+' as int || v[0] == '-' as int)
    ensures SignOf(v).0 == -1 <==> SignOf(v).1 == 1 && v[0] == '-' as int
  {
  }

  /** What `signed_integer` reads from `v`: `sign * v as i64`, wrapping, and how many bytes it takes. */
  function SignedValue(v: seq<byte>): (x: (Option<i64>, nat))
    ensures x.1 <= |v|
  {
    var (sign, k) := SignOf(v);
    var (n, m) := UnsignedValue(v[k..]);
    (if n.Some? then Some(WrapI64(sign * AsI64(n.value))) else None, k + m)
  }

  // ---------------------------------------------------------------------
  // Text
  // ---------------------------------------------------------------------

  /** How many bytes a word takes: the longest prefix free of whitespace. */
  function WordLength(v: seq<byte>): (n: nat)
    ensures n <= |v| && forall k :: 0 <= k < n ==> !IsWhitespace(v[k])
    ensures n < |v| ==> IsWhitespace(v[n])
  {
    PrefixWhile(v, (b: byte) => !IsWhitespace(b))
  }

  /** The contract of WordLength determines it. */
  lemma WordLengthUnique(v: seq<byte>, n: nat)
    requires n <= |v| && (forall k :: 0 <= k < n ==> !IsWhitespace(v[k])) && (n < |v| ==> IsWhitespace(v[n]))
    ensures WordLength(v) == n
  {
  }

  /** A byte other than whitespace inside the word extends it. */
  lemma WordGoesOn(v: seq<byte>, i: nat)
    requires i <= WordLength(v) && i < |v| && !IsWhitespace(v[i])
    ensures i < WordLength(v)
  {
  }

  /** A word read up to whitespace or the end of the line has been read whole. */
  lemma WordStop(v: seq<byte>, i: nat)
    requires i <= WordLength(v) && (i == |v| || (i < |v| && IsWhitespace(v[i])))
    ensures WordLength(v) == i
  {
  }

  /** How many bytes `whitespace` skips: the longest prefix of whitespace. */
  function WhitespaceLength(v: seq<byte>): (n: nat)
    ensures n <= |v| && forall k :: 0 <= k < n ==> IsWhitespace(v[k])
    ensures n < |v| ==> !IsWhitespace(v[n])
  {
    PrefixWhile(v, IsWhitespace)
  }

  /** The contract of WhitespaceLength determines it. */
  lemma WhitespaceLengthUnique(v: seq<byte>, n: nat)
    requires n <= |v| && (forall k :: 0 <= k < n ==> IsWhitespace(v[k])) && (n < |v| ==> !IsWhitespace(v[n]))
    ensures WhitespaceLength(v) == n
  {
  }

  /** How many leading bytes of `lit` and `v` agree. */
  function Matched(lit: seq<byte>, v: seq<byte>): (m: nat)
    ensures m <= |lit| && m <= |v| && lit[..m] == v[..m]
    ensures m < |lit| && m < |v| ==> lit[m] != v[m]
  {
    if lit == [] || v == [] || lit[0] != v[0] then 0 else 1 + Matched(lit[1..], v[1..])
  }

  /** The contract of Matched determines it. */
  lemma MatchedUnique(lit: seq<byte>, v: seq<byte>, m: nat)
    requires m <= |lit| && m <= |v| && lit[..m] == v[..m]
    requires m < |lit| && m < |v| ==> lit[m] != v[m]
    ensures Matched(lit, v) == m
  {
    var n := Matched(lit, v);
    forall k | 0 <= k < n
      ensures lit[k] == v[k]
    {
      assert lit[..n][k] == v[..n][k];
    }
    forall k | 0 <= k < m
      ensures lit[k] == v[k]
    {
      assert lit[..m][k] == v[..m][k];
    }
  }

  /** Decoding one more byte of `v`. */
  lemma RunNext(v: seq<byte>, i: nat, s: State, out: seq<char>)
    requires i < |v| && Run(Start, v[..i]) == (s, out)
    ensures Run(Start, v[..i + 1]) == (Step(s, v[i]).0, out + Emit(Step(s, v[i]).1) + Emit(Step(s, v[i]).2))
  {
    assert v[..i + 1][..i] == v[..i];
  }

  /** One turn of the loop of `string`: the byte `v[i]` is pushed into the decoder and what it answers is appended. */
  method Decode(utf8: Decoder, res: seq<char>, b: byte, ghost v: seq<byte>, ghost i: nat) returns (res': seq<char>)
    requires utf8.Valid() && i < |v| && b == v[i] && (utf8.Fields(), res) == Run(Start, v[..i])
    modifies utf8
    ensures utf8.Valid() && (utf8.Fields(), res') == Run(Start, v[..i + 1])
  {
    ghost var before := utf8.Fields();
    var c1, c2 := utf8.Push(b);
    res' := res + Emit(c1) + Emit(c2);
    RunNext(v, i, before, res);
  }

  // ---------------------------------------------------------------------
  // The cursor as the scanner sees it
  // ---------------------------------------------------------------------

  /**
   * The cursor as a position in the whole input `src`: whether the line has
   * ended, and the index `at` of the next byte to hand out (a pushed-back
   * byte is the one just before the read position, so it is not yet taken).
   */
  datatype Reader = Reader(src: seq<byte>, done: bool, at: nat) {

    predicate Wf()
    {
      at <= |src|
    }

    /** The bytes the cursor will still deliver before `next()` fails: the rest of the line, or nothing once it ended. */
    function Ahead(): seq<byte>
      requires Wf()
    {
      if done then [] else src[at..LineEnd(src, at)]
    }

    /**
     * The cursor after a primitive took the first k bytes ahead and, if
     * `ended`, then had a read fail: that read consumes the newline ending
     * the line, if there is one, and ends the line.
     */
    function Take(k: nat, ended: bool): (r: Reader)
      requires Wf() && k <= |Ahead()| && (ended ==> k == |Ahead()|)
      ensures r.Wf() && r.src == src
    {
      if !ended then Reader(src, done, at + k)
      else if done then this
      else if at + k < |src| then Reader(src, true, at + k + 1)
      else Reader(src, false, at + k)
    }
  }

  /** What is ahead after taking k bytes: the rest of what was ahead, or nothing once a read failed. */
  lemma TakeAhead(r: Reader, k: nat, ended: bool)
    requires r.Wf() && k <= |r.Ahead()| && (ended ==> k == |r.Ahead()|)
    ensures r.Take(k, ended).Ahead() == if ended then [] else r.Ahead()[k..]
  {
    if r.done {
    } else if ended {
      var e := LineEnd(r.src, r.at);
      assert r.at + k == e;
      if e == |r.src| {
        assert LineEnd(r.src, e) == e;
      }
    } else {
      var e := LineEnd(r.src, r.at);
      LineEndFrom(r.src, r.at, r.at + k);
      assert r.Take(k, false).Ahead() == r.src[r.at + k..e];
      DropOfSlice(r.src, r.at, k, e);
    }
  }

  lemma DropOfSlice(s: seq<byte>, a: nat, k: nat, e: nat)
    requires a + k <= e <= |s|
    ensures s[a..e][k..] == s[a + k..e]
  {
  }

  /** Two primitives in a row take what one taking both parts would. */
  lemma TakeTwice(r: Reader, a: nat, e1: bool, b: nat, e2: bool)
    requires r.Wf() && a <= |r.Ahead()| && (e1 ==> a == |r.Ahead()|)
    requires b <= |r.Take(a, e1).Ahead()| && (e2 ==> b == |r.Take(a, e1).Ahead()|)
    requires e1 ==> e2
    ensures a + b <= |r.Ahead()| && ((e1 || e2) ==> a + b == |r.Ahead()|)
    ensures r.Take(a, e1).Take(b, e2) == r.Take(a + b, e1 || e2)
  {
    TakeAhead(r, a, e1);
    if !r.done && !e1 {
      LineEndFrom(r.src, r.at, r.at + a);
    }
  }

  /** `unsigned_integer` as `classify` followed by `digits`: the two takes compose into the one UnsignedValue describes. */
  lemma UnsignedSteps(r0: Reader)
    requires r0.Wf()
    ensures var v := r0.Ahead(); var c := Classification(v); var e1 := |v| <= 1 && c.2 == |v|;
      && c.2 <= |v| && (e1 ==> c.2 == |v|)
      && var r1 := r0.Take(c.2, e1); var w := r1.Ahead(); var n := DigitRun(c.0, w); var u := UnsignedValue(v);
      && r1.Take(n, n == |w|) == r0.Take(u.1, u.1 == |v|)
      && u.0 == (if n > 0 then Some(Accumulate(c.0, w[..n])) else if c.1 then Some(0) else None)
  {
    var v := r0.Ahead();
    var c := Classification(v);
    var e1 := |v| <= 1 && c.2 == |v|;
    TakeAhead(r0, c.2, e1);
    var w := v[c.2..];
    var n := DigitRun(c.0, w);
    TakeTwice(r0, c.2, e1, n, n == |w|);
  }

  /** `signed_integer` as `sign` followed by `unsigned_integer`. */
  lemma SignedSteps(r0: Reader)
    requires r0.Wf()
    ensures var v := r0.Ahead(); var s := SignOf(v);
      && s.1 <= |v| && (v == [] ==> s.1 == |v|)
      && var r1 := r0.Take(s.1, v == []); var w := r1.Ahead(); var u := UnsignedValue(w); var x := SignedValue(v);
      && r1.Take(u.1, u.1 == |w|) == r0.Take(x.1, x.1 == |v|)
      && x.0 == (if u.0.Some? then Some(WrapI64(s.0 * AsI64(u.0.value))) else None)
  {
    var v := r0.Ahead();
    var s := SignOf(v);
    TakeAhead(r0, s.1, v == []);
    var w := v[s.1..];
    var u := UnsignedValue(w);
    TakeTwice(r0, s.1, v == [], u.1, u.1 == |w|);
    var x := SignedValue(v);
    assert x.1 == s.1 + u.1;
    assert (v == [] || u.1 == |w|) == (x.1 == |v|);
  }

  // ---------------------------------------------------------------------
  // The scanner
  // ---------------------------------------------------------------------

  class Scanner {
    /** Whether dropping the scanner discards the rest of the line. */
    const dropLine: bool
    const stdin: Stdin

    /** Only a byte `next()` just returned is pushed back, so the slot holds the byte before the read position, never a newline. */
    ghost predicate Valid()
      reads this, stdin
    {
      && stdin.Valid()
      && (stdin.pushed.Some? ==>
            && 0 < stdin.pos
            && stdin.pushed.value == stdin.src[stdin.pos - 1]
            && stdin.pushed.value != NEWLINE)
    }

    /** The cursor as a position: a pushed-back byte counts as not yet read. */
    ghost function View(): (r: Reader)
      reads this, stdin
      requires Valid()
      ensures r.Wf()
    {
      Reader(stdin.src, stdin.done, if stdin.pushed.Some? then stdin.pos - 1 else stdin.pos)
    }

    /** The position view and the cursor's own stream agree: what is ahead is what `next()` will still return. */
    lemma ViewIsStream()
      requires Valid()
      ensures View().src[View().at..] == stdin.Leftover()
      ensures View().Ahead() == stdin.Visible()
    {
      var s, p := stdin.src, stdin.pos;
      if stdin.pushed.Some? {
        assert s[p - 1..] == [s[p - 1]] + s[p..];
        assert LineEnd(s, p - 1) == LineEnd(s, p);
        assert s[p - 1..LineEnd(s, p)] == [s[p - 1]] + s[p..LineEnd(s, p)];
      }
    }

    /** `scan::stdin(drop_line)`, reading the input `input`. */
    constructor (dropLine: bool, input: seq<byte>)
      ensures Valid() && fresh(stdin) && this.dropLine == dropLine
      ensures View() == Reader(input, false, 0)
    {
      this.dropLine := dropLine;
      stdin := new Stdin(input);
    }

    /**
     * `self.stdin.next()`, with the cursor i bytes into what was ahead of
     * `r0`: the byte at offset i, or a failed read at the end of the line.
     */
    method Read(ghost r0: Reader, ghost i: nat) returns (r: Result<byte, ()>)
      requires Valid() && r0.Wf() && i <= |r0.Ahead()| && View() == r0.Take(i, false)
      modifies stdin
      ensures Valid()
      ensures r.Ok? <==> i < |r0.Ahead()|
      ensures r.Ok? ==> r.value == r0.Ahead()[i] && r.value != NEWLINE
      ensures r.Ok? ==> stdin.pushed.None? && View() == r0.Take(i + 1, false)
      ensures r.Err? ==> View() == r0.Take(i, true)
    {
      if !r0.done && r0.at + i < LineEnd(r0.src, r0.at) {
        LineEndFirst(r0.src, r0.at, r0.at + i);
      }
      r := stdin.Next();
    }

    /** `self.stdin.push(b)` right after `b` was read at offset i: the slot is empty, so `b` is ahead again. */
    method Unread(ghost r0: Reader, ghost i: nat, b: byte)
      requires Valid() && r0.Wf() && i < |r0.Ahead()| && b == r0.Ahead()[i]
      requires stdin.pushed.None? && View() == r0.Take(i + 1, false)
      modifies stdin
      ensures Valid() && View() == r0.Take(i, false)
    {
      LineEndFirst(r0.src, r0.at, r0.at + i);
      stdin.Push(b);
    }

    /**
     * The `digits!` loop in radix `ty` (`binary`, `octal`, `decimal` and
     * `hexadecimal`, dispatched by `digits(ty)`): folds the digits ahead into
     * the accumulator and pushes back the first byte that is not one.
     */
    method Digits(ty: IntType) returns (r: Option<u64>)
      requires Valid()
      modifies stdin
      ensures Valid()
      ensures var v := old(View().Ahead()); var n := DigitRun(ty, v);
        && r == (if n == 0 then None else Some(Accumulate(ty, v[..n])))
        && View() == old(View()).Take(n, n == |v|)
    {
      ghost var r0 := View();
      ghost var v := r0.Ahead();
      ghost var i := 0;
      var ok := false;
      var res: u64 := 0;
      while true
        invariant Valid()
        invariant i <= |v| && AllDigits(ty, v[..i])
        invariant ok == (i > 0) && res == Accumulate(ty, v[..i])
        invariant View() == r0.Take(i, false)
        decreases |v| - i
      {
        var next := Read(r0, i);
        if next.Err? {
          break;
        }
        var b := next.value;
        match DigitValue(ty, b) {
          case Some(d) =>
            ok := true;
            res := MulAdd(res, Radix(ty), d);
            AccumulateNext(ty, v, i);
            i := i + 1;
          case None =>
            Unread(r0, i, b);
            break;
        }
      }
      DigitRunUnique(ty, v, i);
      r := if ok then Some(res) else None;
    }

    /**
     * `classify`: a leading `0x`/`0X`, `0o`/`0O` or `0b`/`0B` selects the
     * radix and is consumed; a `0` followed by anything else is consumed and
     * reported, the byte after it pushed back; any other first byte is pushed
     * back and the radix is decimal.
     */
    method Classify() returns (ty: IntType, zero: bool)
      requires Valid()
      modifies stdin
      ensures Valid()
      ensures var v := old(View().Ahead()); var c := Classification(v);
        && ty == c.0 && zero == c.1
        && View() == old(View()).Take(c.2, |v| <= 1 && c.2 == |v|)
    {
      ghost var r0 := View();
      ghost var v := r0.Ahead();
      var first := Read(r0, 0);
      if first.Err? {
        return Decimal, false;
      }
      var b := first.value;
      if b == '0' as int {
        var second := Read(r0, 1);
        if second.Err? {
          return Decimal, true;
        }
        var c := second.value;
        if c == 'x' as int || c == 'X' as int {
          ty, zero := Hex, false;
        } else if c == 'o' as int || c == 'O' as int {
          ty, zero := Octal, false;
        } else if c == 'b' as int || c == 'B' as int {
          ty, zero := Binary, false;
        } else {
          Unread(r0, 1, c);
          ty, zero := Decimal, true;
        }
      } else {
        Unread(r0, 0, b);
        ty, zero := Decimal, false;
      }
    }

    /** `unsigned_integer`: classify, then the digits of that radix; a bare `0` with no digit after it reads as 0. */
    method UnsignedInteger() returns (r: Option<u64>)
      requires Valid()
      modifies stdin
      ensures Valid()
      ensures var v := old(View().Ahead()); var u := UnsignedValue(v);
        r == u.0 && View() == old(View()).Take(u.1, u.1 == |v|)
    {
      UnsignedSteps(View());
      var ty, zero := Classify();
      var d := Digits(ty);
      if zero {
        r := if d.Some? then d else Some(0);
      } else {
        r := d;
      }
    }

    /** `sign`: an optional `+` or `-` is consumed; any other byte is pushed back and the sign is positive. */
    method Sign() returns (s: int)
      requires Valid()
      modifies stdin
      ensures Valid()
      ensures var v := old(View().Ahead());
        s == SignOf(v).0 && View() == old(View()).Take(SignOf(v).1, v == [])
    {
      ghost var r0 := View();
      var next := Read(r0, 0);
      if next.Err? {
        return 1;
      }
      var b := next.value;
      if b == '+' as int {
        s := 1;
      } else if b == '-' as int {
        s := -1;
      } else {
        Unread(r0, 0, b);
        s := 1;
      }
    }

    /** `signed_integer`: the sign, then an unsigned integer, multiplied as `i64`. */
    method SignedInteger() returns (r: Option<i64>)
      requires Valid()
      modifies stdin
      ensures Valid()
      ensures var v := old(View().Ahead()); var x := SignedValue(v);
        r == x.0 && View() == old(View()).Take(x.1, x.1 == |v|)
    {
      SignedSteps(View());
      var sign := Sign();
      var u := UnsignedInteger();
      r := if u.Some? then Some(WrapI64(sign * AsI64(u.value))) else None;
    }

    /**
     * `string(word, line)`: decodes the bytes ahead as UTF-8, stopping before
     * the first whitespace byte (pushed back) when `word`, and otherwise at
     * the end of the line; one REPLACEMENT is added if a sequence is left
     * incomplete.
     */
    method String(word: bool, line: bool) returns (res: seq<char>)
      requires Valid()
      modifies stdin
      ensures Valid()
      ensures var v := old(View().Ahead()); var n := if word then WordLength(v) else |v|;
        res == DecodeText(v[..n]) && View() == old(View()).Take(n, n == |v|)
    {
      ghost var r0 := View();
      ghost var v := r0.Ahead();
      ghost var i := 0;
      res := [];
      var utf8 := new Decoder();
      while true
        invariant Valid() && utf8.Valid() && fresh(utf8)
        invariant i <= |v| && (word ==> i <= WordLength(v))
        invariant (utf8.Fields(), res) == Run(Start, v[..i])
        invariant View() == r0.Take(i, false)
        decreases |v| - i
      {
        var next := Read(r0, i);
        if next.Err? {
          break;
        }
        var b := next.value;
        if word && IsWhitespace(b) {
          Unread(r0, i, b);
          break;
        } else if line && b == NEWLINE {
          break;
        }
        if word {
          WordGoesOn(v, i);
        }
        res := Decode(utf8, res, b, v, i);
        i := i + 1;
      }
      if word {
        WordStop(v, i);
      }
      if utf8.Pending() {
        res := res + [REPLACEMENT];
      }
    }

    /** `word`: the longest whitespace-free text ahead, decoded. */
    method Word() returns (res: seq<char>)
      requires Valid()
      modifies stdin
      ensures Valid()
      ensures var v := old(View().Ahead()); var n := WordLength(v);
        res == DecodeText(v[..n]) && View() == old(View()).Take(n, n == |v|)
    {
      res := String(true, false);
    }

    /** `line`: the rest of the line, decoded; the newline ending it is consumed. */
    method Line() returns (res: seq<char>)
      requires Valid()
      modifies stdin
      ensures Valid()
      ensures var v := old(View().Ahead());
        res == DecodeText(v) && View() == old(View()).Take(|v|, true)
    {
      ghost var v := View().Ahead();
      res := String(false, true);
      assert v[..|v|] == v;
    }

    /** `whitespace`: skips the longest run of whitespace ahead, pushing back the byte after it. */
    method Whitespace()
      requires Valid()
      modifies stdin
      ensures Valid()
      ensures var v := old(View().Ahead()); var n := WhitespaceLength(v);
        View() == old(View()).Take(n, n == |v|)
    {
      ghost var r0 := View();
      ghost var v := r0.Ahead();
      ghost var i := 0;
      while true
        invariant Valid()
        invariant i <= WhitespaceLength(v)
        invariant View() == r0.Take(i, false)
        decreases |v| - i
      {
        var next := Read(r0, i);
        if next.Err? {
          break;
        }
        var b := next.value;
        if !IsWhitespace(b) {
          Unread(r0, i, b);
          break;
        }
        i := i + 1;
      }
      WhitespaceLengthUnique(v, i);
    }

    /**
     * `literal(lit)`: compares the bytes ahead with `lit`. A mismatching byte
     * is pushed back and the answer is None, but the bytes matched before it
     * stay consumed; running out of input before `lit` is complete still
     * answers Some(()).
     */
    method Literal(lit: seq<byte>) returns (r: Option<()>)
      requires Valid()
      modifies stdin
      ensures Valid()
      ensures var v := old(View().Ahead()); var m := Matched(lit, v);
        && r == (if m < |lit| && m < |v| then None else Some(()))
        && View() == old(View()).Take(m, m < |lit| && m == |v|)
    {
      ghost var r0 := View();
      ghost var v := r0.Ahead();
      for i := 0 to |lit|
        invariant Valid()
        invariant i <= |v| && lit[..i] == v[..i]
        invariant View() == r0.Take(i, false)
      {
        var next := Read(r0, i);
        if next.Err? {
          MatchedUnique(lit, v, i);
          return Some(());
        }
        var c := next.value;
        if c != lit[i] {
          Unread(r0, i, c);
          MatchedUnique(lit, v, i);
          return None;
        }
        assert lit[..i + 1] == v[..i + 1];
      }
      MatchedUnique(lit, v, |lit|);
      r := Some(());
    }

    /** `Drop for Scanner`: with `drop_line`, reads until `next()` fails, discarding the rest of the line; otherwise nothing. */
    method Drop()
      requires Valid()
      modifies stdin
      ensures Valid()
      ensures dropLine ==> View() == old(View()).Take(|old(View().Ahead())|, true)
      ensures !dropLine ==> unchanged(stdin)
    {
      if dropLine {
        ghost var r0 := View();
        ghost var v := r0.Ahead();
        ghost var i := 0;
        while true
          invariant Valid()
          invariant i <= |v| && View() == r0.Take(i, false)
          decreases |v| - i
        {
          var next := Read(r0, i);
          if next.Err? {
            break;
          }
          i := i + 1;
        }
      }
    }
  }
}
