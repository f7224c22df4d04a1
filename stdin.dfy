/**
 * The byte cursor of scan/src/stdin.rs.
 *
 * The source reads standard input one byte at a time with `libc::read` and
 * keeps a single pushed-back byte in a process-wide `static mut`. Here the
 * input is a sequence of bytes `src` with a read position `pos`, and the
 * pushback slot is a field of the cursor.
 */
module Input {
  import opened Wrappers
  import opened Bytes

  /** The index of the first newline in `s` at or after `i`, or |s| when there is none. */
  function LineEnd(s: seq<byte>, i: nat): (e: nat)
    requires i <= |s|
    ensures i <= e <= |s|
    ensures e < |s| ==> s[e] == NEWLINE
    decreases |s| - i
  {
    if i == |s| || s[i] == NEWLINE then i else LineEnd(s, i + 1)
  }

  /** No byte between `i` and LineEnd(s, i) is a newline. */
  lemma {:induction false} LineEndFirst(s: seq<byte>, i: nat, k: nat)
    requires i <= |s| && i <= k < LineEnd(s, i)
    ensures s[k] != NEWLINE
    decreases k - i
  {
    if i < k {
      LineEndFirst(s, i + 1, k);
    }
  }

  /** Starting later on the same line finds the same newline. */
  lemma {:induction false} LineEndFrom(s: seq<byte>, i: nat, k: nat)
    requires i <= |s| && i <= k <= LineEnd(s, i)
    ensures LineEnd(s, k) == LineEnd(s, i)
    decreases k - i
  {
    if i < k {
      LineEndFrom(s, i + 1, k);
    }
  }

  class Stdin {
    /** Set when a newline was read: the line is over for this cursor. */
    var done: bool
    /** The pushback slot (the source's process-wide `pushed`). */
    var pushed: Option<byte>
    /** Everything `libc::read` would deliver, in order. */
    const src: seq<byte>
    /** How many bytes of `src` have been read. */
    var pos: nat

    ghost predicate Valid()
      reads this
    {
      pos <= |src|
    }

    function Slot(): seq<byte>
      reads this
    {
      if pushed.Some? then [pushed.value] else []
    }

    /** The bytes not yet taken: the pushed-back byte, then the unread source. */
    function Leftover(): seq<byte>
      reads this
      requires Valid()
    {
      Slot() + src[pos..]
    }

    /** The bytes `next()` will still return, in order, before it starts failing. */
    function Visible(): seq<byte>
      reads this
      requires Valid()
    {
      if done then [] else Slot() + src[pos..LineEnd(src, pos)]
    }

    /** `Stdin::new()` on the input `input`. */
    constructor (input: seq<byte>)
      ensures Valid() && src == input && pos == 0 && !done && pushed == None
      ensures Leftover() == input && Visible() == input[..LineEnd(input, 0)]
    {
      done := false;
      pushed := None;
      src := input;
      pos := 0;
    }

    /**
     * `Stdin::next()`: fails for good once `done`; otherwise returns the pushed
     * byte if there is one, without reading; otherwise reads one byte, failing
     * at the end of the input, and failing and setting `done` on a newline.
     */
    method Next() returns (r: Result<byte, ()>)
      requires Valid()
      modifies this
      ensures Valid()
      ensures old(done) ==> r.Err? && done && pushed == old(pushed) && pos == old(pos)
      ensures !old(done) && old(pushed).Some? ==>
        r == Ok(old(pushed).value) && !done && pushed == None && pos == old(pos)
      ensures !old(done) && old(pushed).None? && old(pos) == |src| ==>
        r.Err? && !done && pushed == None && pos == old(pos)
      ensures !old(done) && old(pushed).None? && old(pos) < |src| ==>
        pushed == None && pos == old(pos) + 1 &&
        if src[old(pos)] == NEWLINE then r.Err? && done else r == Ok(src[old(pos)]) && !done
    {
      if done {
        return Err(());
      }
      if pushed.Some? {
        r := Ok(pushed.value);
        pushed := None;
        return;
      }
      if pos == |src| {
        return Err(());
      }
      var b := src[pos];
      pos := pos + 1;
      if b == NEWLINE {
        done := true;
        r := Err(());
      } else {
        r := Ok(b);
      }
    }

    /** `Stdin::push(b)`: fills the slot when it is empty and is a no-op when it is full. */
    method Push(b: byte)
      requires Valid()
      modifies this
      ensures Valid()
      ensures pushed == if old(pushed).None? then Some(b) else old(pushed)
      ensures done == old(done) && pos == old(pos)
      ensures old(pushed).None? ==>
        && Leftover() == [b] + old(Leftover())
        && Visible() == if done then [] else [b] + old(Visible())
    {
      if pushed.None? {
        pushed := Some(b);
      }
    }
  }
}
