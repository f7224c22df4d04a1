/**
 * The incremental UTF-8 decoder of scan/src/utf8.rs.
 *
 * A decoder holds the code point assembled so far (`cur`) and the number of
 * continuation bytes it still expects (`rem`). Each pushed byte yields a pair
 * of optional characters: the first closes (or abandons) the sequence that was
 * pending, the second is the byte's own character when it has one at once.
 *
 * The decoder is modelled as written: a lead byte of width n sets `rem` to n,
 * not n - 1, and always yields REPLACEMENT in its second slot, so a well-formed
 * multi-byte character is never reproduced (see MultiByteCharIsReplaced).
 */
module Utf8 {
  import opened Wrappers
  import opened Bytes

  /** U+FFFD, emitted for every malformed or abandoned sequence. */
  const REPLACEMENT: char := 0xFFFD as char

  /** `std::str::utf8_char_width`: the length of the sequence a byte starts, 0 if it cannot start one. */
  function CharWidth(b: byte): (n: nat)
    ensures n <= 4
    ensures n == 1 <==> b < 0x80
    ensures 0x80 <= b < 0xC0 ==> n == 0
  {
    if b < 0x80 then 1
    else if b < 0xC2 then 0
    else if b < 0xE0 then 2
    else if b < 0xF0 then 3
    else if b < 0xF5 then 4
    else 0
  }

  /** `char::from_u32`: a character exactly for the Unicode scalar values. */
  function FromU32(x: nat): (r: Option<char>)
    ensures r.Some? ==> r.value as int == x
    ensures forall c: char :: c as int == x ==> r == Some(c)
  {
    if x < 0xD800 || 0xE000 <= x < 0x11_0000 then Some(x as char) else None
  }

  /** `b & (0xFF >> (n + 1))`: the low 7 - n bits of a lead byte of width n. */
  function Payload(b: byte, n: nat): nat
    requires 2 <= n <= 4
  {
    if n == 2 then b % 0x20 else if n == 3 then b % 0x10 else b % 0x08
  }

  /** The two fields of a decoder. */
  datatype State = State(cur: nat, rem: nat)

  /** `UTF8::new()`. */
  const Start := State(0, 0)

  /** What `UTF8::push` does with one byte: the new state and the two outputs. */
  function Step(s: State, b: byte): (r: (State, Option<char>, Option<char>))
    ensures r.2.Some? <==> !(0x80 <= b < 0xC0)
    ensures !(0x80 <= b < 0xC0) ==> (r.1.Some? <==> s.rem > 0)
    ensures r.1.Some? || r.2.Some? || r.0.rem > 0
  {
    if b < 0x80 then
      if s.rem > 0 then (State(s.cur, 0), Some(REPLACEMENT), Some(b as char))
      else (s, None, Some(b as char))
    else if b >= 0xC0 then
      var abandoned := if s.rem > 0 then Some(REPLACEMENT) else None;
      var n := CharWidth(b);
      if n == 0 then (State(s.cur, 0), abandoned, Some(REPLACEMENT))
      else (State(Payload(b, n), n), abandoned, Some(REPLACEMENT))
    else if s.rem > 0 then
      var cur := s.cur * 64 + b % 64;
      if s.rem - 1 == 0 then
        (State(cur, 0), Some(if FromU32(cur).Some? then FromU32(cur).value else REPLACEMENT), None)
      else
        (State(cur, s.rem - 1), None, None)
    else
      (s, Some(REPLACEMENT), None)
  }

  /**
   * How large `cur` may be while `rem` continuation bytes are pending: the
   * bits still to come fit beside it in 27 bits, 2^27 / 64^rem.
   */
  function CurLimit(rem: nat): nat
  {
    match rem
    case 0 => 0x800_0000
    case 1 => 0x20_0000
    case 2 => 0x8000
    case 3 => 0x200
    case _ => 0x8
  }

  /**
   * The invariant of a decoder: at most four continuation bytes are pending,
   * and the bits still to come fit beside `cur` in 27 bits, so the `u32`
   * shift `cur << 6` of the source never loses a bit.
   */
  predicate Bounded(s: State)
  {
    s.rem <= 4 && s.cur < CurLimit(s.rem)
  }

  /** `rem <= 4` and the 32-bit accumulator are preserved by every push. */
  lemma StepBounded(s: State, b: byte)
    requires Bounded(s)
    ensures Bounded(Step(s, b).0)
    ensures Step(s, b).0.cur < 0x1_0000_0000
  {
  }

  /** An ASCII byte passes through; it abandons a pending sequence with one REPLACEMENT first. */
  lemma AsciiStep(s: State, b: byte)
    requires b < 0x80
    ensures var (s', c1, c2) := Step(s, b);
      c2 == Some(b as char) && s'.rem == 0 && s'.cur == s.cur &&
      (c1 == if s.rem > 0 then Some(REPLACEMENT) else None)
  {
  }

  /**
   * A byte from 0xC0 up always answers REPLACEMENT in the second slot, and in
   * the first slot exactly when a sequence was pending. A lead byte of width n
   * leaves n (not n - 1) continuation bytes expected; an invalid one, none.
   */
  lemma LeadStep(s: State, b: byte)
    requires b >= 0xC0
    ensures var (s', c1, c2) := Step(s, b);
      c2 == Some(REPLACEMENT) &&
      (c1 == Some(REPLACEMENT) <==> s.rem > 0) && (c1.None? <==> s.rem == 0) &&
      s'.rem == CharWidth(b) &&
      (CharWidth(b) != 0 ==> s'.cur == Payload(b, CharWidth(b)))
  {
  }

  /** A continuation byte with nothing pending is a stray: one REPLACEMENT, state unchanged. */
  lemma StrayContinuation(s: State, b: byte)
    requires 0x80 <= b < 0xC0 && s.rem == 0
    ensures Step(s, b) == (s, Some(REPLACEMENT), None)
  {
  }

  /**
   * A continuation byte of a pending sequence appends its six payload bits and
   * counts down; nothing is emitted until the count reaches zero, and then the
   * assembled scalar value, or REPLACEMENT for a surrogate or a value past U+10FFFF.
   */
  lemma ContinuationStep(s: State, b: byte)
    requires 0x80 <= b < 0xC0 && s.rem > 0
    ensures var (s', c1, c2) := Step(s, b);
      s'.rem == s.rem - 1 && s'.cur == s.cur * 64 + b % 64 && c2 == None &&
      (s'.rem > 0 ==> c1 == None) &&
      (s'.rem == 0 && (s'.cur < 0xD800 || 0xE000 <= s'.cur < 0x11_0000) ==> c1 == Some(s'.cur as char)) &&
      (s'.rem == 0 && !(s'.cur < 0xD800 || 0xE000 <= s'.cur < 0x11_0000) ==> c1 == Some(REPLACEMENT))
  {
  }

  /** The characters of an optional output, as a sequence. */
  function Emit(c: Option<char>): seq<char>
  {
    if c.Some? then [c.value] else []
  }

  /** The state after pushing the bytes `bs` one at a time into a decoder in state `s`, and everything emitted, in order. */
  function Run(s: State, bs: seq<byte>): (State, seq<char>)
  {
    if bs == [] then (s, [])
    else
      var before := Run(s, bs[..|bs| - 1]);
      var step := Step(before.0, bs[|bs| - 1]);
      (step.0, before.1 + Emit(step.1) + Emit(step.2))
  }

  /** What the scanner builds from `bs`: everything emitted, then one REPLACEMENT if a sequence is still pending. */
  function DecodeText(bs: seq<byte>): seq<char>
  {
    var r := Run(Start, bs);
    if r.0.rem > 0 then r.1 + [REPLACEMENT] else r.1
  }

  /** The characters of the ASCII bytes `bs`, one for one. */
  function AsciiChars(bs: seq<byte>): (r: seq<char>)
    requires forall k :: 0 <= k < |bs| ==> bs[k] < 0x80
    ensures |r| == |bs| && forall k :: 0 <= k < |bs| ==> r[k] as int == bs[k]
  {
    seq(|bs|, k requires 0 <= k < |bs| => bs[k] as char)
  }

  /** Decoding ASCII from a fresh decoder gives back the input, character for character, and leaves nothing pending. */
  lemma {:induction false} AsciiRoundTrip(bs: seq<byte>)
    requires forall k :: 0 <= k < |bs| ==> bs[k] < 0x80
    ensures Run(Start, bs) == (Start, AsciiChars(bs))
    ensures DecodeText(bs) == AsciiChars(bs)
  {
    if bs != [] {
      var init, b := bs[..|bs| - 1], bs[|bs| - 1];
      AsciiRoundTrip(init);
      assert Step(Start, b) == (Start, None, Some(b as char));
      assert AsciiChars(bs) == AsciiChars(init) + [b as char];
      calc {
        Run(Start, bs);
        (Start, AsciiChars(init) + Emit(None) + Emit(Some(b as char)));
        { assert AsciiChars(init) + Emit(None) + Emit(Some(b as char)) == AsciiChars(bs); }
        (Start, AsciiChars(bs));
      }
    }
  }

  /** Every state a fresh decoder reaches is Bounded. */
  lemma {:induction false} RunBounded(s: State, bs: seq<byte>)
    requires Bounded(s)
    ensures Bounded(Run(s, bs).0)
  {
    if bs != [] {
      RunBounded(s, bs[..|bs| - 1]);
      StepBounded(Run(s, bs[..|bs| - 1]).0, bs[|bs| - 1]);
    }
  }

  /**
   * A lead byte of width n followed by fewer than n continuation bytes
   * emits one REPLACEMENT and leaves n minus the continuation bytes pending.
   */
  lemma {:induction false} LeadThenContinuations(b: byte, cs: seq<byte>)
    requires 2 <= CharWidth(b) && |cs| < CharWidth(b)
    requires forall k :: 0 <= k < |cs| ==> 0x80 <= cs[k] < 0xC0
    ensures Run(Start, [b] + cs).0.rem == CharWidth(b) - |cs|
    ensures Run(Start, [b] + cs).1 == [REPLACEMENT]
  {
    if cs == [] {
      assert [b] + cs == [b];
      assert [b][..0] == [];
    } else {
      var init := cs[..|cs| - 1];
      LeadThenContinuations(b, init);
      assert ([b] + cs)[..|[b] + cs| - 1] == [b] + init;
      assert ([b] + cs)[|[b] + cs| - 1] == cs[|cs| - 1];
    }
  }

  /**
   * No well-formed multi-byte character is decoded: its lead byte answers
   * REPLACEMENT, its continuation bytes leave one more byte expected, and
   * that pending sequence is flushed as a second REPLACEMENT.
   */
  lemma MultiByteCharIsReplaced(bs: seq<byte>)
    requires 2 <= |bs| && CharWidth(bs[0]) == |bs|
    requires forall k :: 1 <= k < |bs| ==> 0x80 <= bs[k] < 0xC0
    ensures DecodeText(bs) == [REPLACEMENT, REPLACEMENT]
  {
    var cs := bs[1..];
    assert bs == [bs[0]] + cs;
    LeadThenContinuations(bs[0], cs);
  }

  /**
   * Inside text a third byte after the two of a well-formed character is
   * taken as the awaited continuation: C3 A9 80 reads as REPLACEMENT, U+3A40.
   */
  lemma ContinuedCharExample()
    ensures DecodeText([0xC3, 0xA9, 0x80]) == [REPLACEMENT, 0x3A40 as char]
  {
    var bs: seq<byte> := [0xC3, 0xA9, 0x80];
    var one: seq<byte>, two: seq<byte> := [0xC3], [0xC3, 0xA9];
    assert one[..0] == [] && two[..1] == one && bs[..2] == two;
    assert Step(Start, 0xC3) == (State(3, 2), None, Some(REPLACEMENT));
    assert Run(Start, one[..0]) == (Start, []);
    assert [] + Emit(None) + Emit(Some(REPLACEMENT)) == [REPLACEMENT];
    assert Run(Start, one) == (State(3, 2), [REPLACEMENT]);
    assert Step(State(3, 2), 0xA9) == (State(233, 1), None, None);
    assert [REPLACEMENT] + Emit(None) + Emit(None) == [REPLACEMENT];
    assert Run(Start, two) == (State(233, 1), [REPLACEMENT]);
    assert Step(State(233, 1), 0x80) == (State(0x3A40, 0), Some(0x3A40 as char), None);
    assert [REPLACEMENT] + Emit(Some(0x3A40 as char)) + Emit(None) == [REPLACEMENT, 0x3A40 as char];
    assert Run(Start, bs) == (State(0x3A40, 0), [REPLACEMENT, 0x3A40 as char]);
  }

  /** The decoder object of the source: `UTF8 { cur, rem }`. */
  class Decoder {
    var cur: nat
    var rem: nat

    function Fields(): State
      reads this
    {
      State(cur, rem)
    }

    ghost predicate Valid()
      reads this
    {
      Bounded(Fields())
    }

    /** `UTF8::new()`. */
    constructor ()
      ensures Valid() && Fields() == Start
    {
      cur, rem := 0, 0;
    }

    /** `UTF8::push(b)`. */
    method Push(b: byte) returns (c1: Option<char>, c2: Option<char>)
      requires Valid()
      modifies this
      ensures Valid()
      ensures (Fields(), c1, c2) == Step(old(Fields()), b)
    {
      StepBounded(Fields(), b);
      if b < 0x80 {
        if rem > 0 {
          rem := 0;
          c1, c2 := Some(REPLACEMENT), Some(b as char);
        } else {
          c1, c2 := None, Some(b as char);
        }
      } else if b >= 0xC0 {
        var abandoned := if rem > 0 then Some(REPLACEMENT) else None;
        rem := 0;
        var n := CharWidth(b);
        if n == 0 {
          c1, c2 := abandoned, Some(REPLACEMENT);
        } else {
          rem := n;
          cur := Payload(b, n);
          c1, c2 := abandoned, Some(REPLACEMENT);
        }
      } else {
        if rem > 0 {
          rem := rem - 1;
          cur := cur * 64 + b % 64;
          if rem == 0 {
            match FromU32(cur) {
              case Some(c) => c1, c2 := Some(c), None;
              case None => c1, c2 := Some(REPLACEMENT), None;
            }
          } else {
            c1, c2 := None, None;
          }
        } else {
          c1, c2 := Some(REPLACEMENT), None;
        }
      }
    }

    /** `UTF8::pending()`: a sequence is incomplete. */
    function Pending(): (p: bool)
      reads this
      ensures p <==> rem != 0
    {
      rem > 0
    }
  }
}
