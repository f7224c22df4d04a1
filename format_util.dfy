/**
 * The helpers of the format-spec compiler, scan_mac/src/util.rs: an iterator
 * adaptor that numbers its items and can look ahead, the tokens of a format
 * string, and a cursor over a token vector.
 */
module FormatUtil {
  import opened Wrappers

  /**
   * `PeekN<U, T>`: wraps an iterator, pairs every item with its index, and can
   * look any number of items ahead by buffering them.
   *
   * The wrapped iterator is the sequence `items` of everything it would yield,
   * of which the first `taken` have been pulled. Pulled items not yet handed
   * out wait in `peeked`, the source's ring buffer.
   */
  class PeekN<U> {
    const items: seq<U>
    var taken: nat
    var counter: nat
    var peeked: seq<U>

    /** The buffer holds exactly the pulled items that `next()` has not yet yielded. */
    ghost predicate Valid()
      reads this
    {
      taken <= |items| && counter + |peeked| == taken && peeked == items[counter..taken]
    }

    /** What `next()` will yield from now on, in order. */
    ghost function Remaining(): seq<U>
      reads this
      requires Valid()
    {
      items[counter..]
    }

    /** `PeekN::new(intern)`. */
    constructor (intern: seq<U>)
      ensures Valid() && items == intern && counter == 0 && peeked == []
      ensures Remaining() == intern
    {
      items := intern;
      taken := 0;
      counter := 0;
      peeked := [];
    }

    /**
     * `peek(n)`: the item the (n+1)-th following `next()` will yield, or None
     * when fewer items remain. What `next()` yields is not changed.
     */
    method Peek(n: nat) returns (r: Option<U>)
      requires Valid()
      modifies this
      ensures Valid() && counter == old(counter)
      ensures Remaining() == old(Remaining())
      ensures r == if n < |Remaining()| then Some(Remaining()[n]) else None
    {
      if n >= |peeked| {
        var m := n - |peeked| + 1;
        var k := 0;
        while k < m
          invariant Valid() && counter == old(counter)
          invariant k <= m && |peeked| + m == n + 1 + k
        {
          if taken < |items| {
            peeked := peeked + [items[taken]];
            taken := taken + 1;
          } else {
            return None;
          }
          k := k + 1;
        }
      }
      r := Some(peeked[n]);
    }

    /** `next()`: the next item with its index; indices count 0, 1, 2, ... */
    method Next() returns (r: Option<(nat, U)>)
      requires Valid()
      modifies this
      ensures Valid()
      ensures old(Remaining()) == [] ==> r == None && counter == old(counter)
      ensures old(Remaining()) != [] ==>
        r == Some((old(counter), old(Remaining())[0])) && counter == old(counter) + 1 &&
        Remaining() == old(Remaining())[1..]
    {
      var res: Option<U>;
      if |peeked| > 0 {
        res := Some(peeked[0]);
        peeked := peeked[1..];
      } else if taken < |items| {
        res := Some(items[taken]);
        taken := taken + 1;
      } else {
        res := None;
      }
      match res {
        case Some(x) =>
          counter := counter + 1;
          r := Some((counter - 1, x));
        case None =>
          r := None;
      }
    }
  }

  /** The tokens of a format string; a `Literal` carries its length in characters. */
  datatype Token = LeftBrace | LeftBraceBrace | RightBrace | RightBraceBrace | Literal(len: nat) | Colon | Space

  /** Each token with the offset of its first character. */
  type Tokens = seq<(nat, Token)>

  /** The first index at or after `p` whose token is not a Space, or |t| when there is none. */
  function FirstNonSpace(t: Tokens, p: nat): (k: nat)
    requires p <= |t|
    ensures p <= k <= |t|
    ensures forall m :: p <= m < k ==> t[m].1 == Space
    ensures k < |t| ==> t[k].1 != Space
    decreases |t| - p
  {
    if p == |t| || t[p].1 != Space then p else FirstNonSpace(t, p + 1)
  }

  /**
   * Where `skip_spaces` leaves a cursor at `p`: on the first non-Space token
   * at or after `p`; when only Spaces (or nothing) remain, the step back after
   * running off the end leaves it on the last token.
   */
  function SkipTarget(t: Tokens, p: nat): (r: nat)
    requires p <= |t|
    ensures r <= |t| && (|t| > 0 ==> r < |t|)
    ensures r < |t| && r >= p ==> t[r].1 != Space || forall m :: p <= m < |t| ==> t[m].1 == Space
  {
    var k := FirstNonSpace(t, p);
    if k < |t| then k else if |t| > 0 then |t| - 1 else 0
  }

  /**
   * When a non-Space token lies at or after `p`, `skip_spaces` stops on the
   * first one; when none does, on the last token.
   */
  lemma SkipTargetLands(t: Tokens, p: nat)
    requires p <= |t|
    ensures (exists k :: p <= k < |t| && t[k].1 != Space) ==>
      var q := SkipTarget(t, p);
      p <= q < |t| && t[q].1 != Space && forall m :: p <= m < q ==> t[m].1 == Space
    ensures (forall k :: p <= k < |t| ==> t[k].1 == Space) ==>
      SkipTarget(t, p) == if |t| > 0 then |t| - 1 else 0
  {
  }

  /** `skip_spaces` passes over nothing but Spaces. */
  lemma SkipTargetPassesSpaces(t: Tokens, p: nat)
    requires p <= |t|
    ensures forall m :: p <= m < SkipTarget(t, p) ==> t[m].1 == Space
  {
    var k := FirstNonSpace(t, p);
  }

  /** `skip_spaces` from `p` stops at `q` when only Spaces lie before the non-Space token at `q`. */
  lemma SkipTargetAt(t: Tokens, p: nat, q: nat)
    requires p <= q < |t| && t[q].1 != Space
    requires forall m :: p <= m < q ==> t[m].1 == Space
    ensures SkipTarget(t, p) == q
  {
    SkipTargetLands(t, p);
  }

  /** The cursor never leaves the token vector, and it moves back only from the end. */
  lemma SkipTargetBounds(t: Tokens, p: nat)
    requires p <= |t|
    ensures SkipTarget(t, p) <= |t| && (|t| > 0 ==> SkipTarget(t, p) < |t|)
    ensures SkipTarget(t, p) >= p || (p == |t| && SkipTarget(t, p) == p - 1)
  {
    var k := FirstNonSpace(t, p);
    if k < |t| {
      assert p <= k < |t| && t[k].1 != Space;
    } else {
      assert forall m :: p <= m < |t| ==> t[m].1 == Space;
    }
  }

  /** `Stream`: a cursor `pos` over a token vector. */
  class Stream {
    const tokens: Tokens
    var pos: nat

    /** `pos <= tokens.len()`, kept by every operation. */
    ghost predicate Valid()
      reads this
    {
      pos <= |tokens|
    }

    /** `Stream::new(v)`. */
    constructor (v: Tokens)
      ensures Valid() && tokens == v && pos == 0
    {
      tokens := v;
      pos := 0;
    }

    /** `next()`: the token under the cursor, moving past it; None at the end, not moving. */
    method Next() returns (r: Option<(nat, Token)>)
      requires Valid()
      modifies this
      ensures Valid()
      ensures old(pos) < |tokens| ==> r == Some(tokens[old(pos)]) && pos == old(pos) + 1
      ensures old(pos) == |tokens| ==> r == None && pos == old(pos)
    {
      if pos < |tokens| {
        pos := pos + 1;
        r := Some(tokens[pos - 1]);
      } else {
        r := None;
      }
    }

    /** `step_back()`: one token back, never before the first. */
    method StepBack()
      requires Valid()
      modifies this
      ensures Valid()
      ensures pos == if old(pos) > 0 then old(pos) - 1 else 0
    {
      if pos > 0 {
        pos := pos - 1;
      }
    }

    /** `skip_spaces()`: reads past Space tokens, then steps back over the token that ended the run. */
    method SkipSpaces()
      requires Valid()
      modifies this
      ensures Valid()
      ensures pos == SkipTarget(tokens, old(pos))
    {
      while true
        invariant Valid() && old(pos) <= pos
        invariant FirstNonSpace(tokens, pos) == FirstNonSpace(tokens, old(pos))
        decreases |tokens| - pos
      {
        var t := Next();
        if t.Some? && t.value.1 == Space {
          continue;
        }
        StepBack();
        break;
      }
    }
  }
}
