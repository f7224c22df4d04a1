/**
 * What the format-spec compiler of scan_mac/src/lib.rs guarantees about the
 * Args it produces, the table of placeholder names, and what it makes of a
 * few concrete patterns.
 */
module FormatFacts {
  import opened Wrappers
  import opened FormatUtil
  import opened Format

  /** No blank character in `s`. */
  predicate Plain(s: string)
  {
    forall m :: 0 <= m < |s| ==> !Blank(s[m])
  }

  /**
   * The shape of every Args list `parse` produces: no two neighbouring Lits
   * (text is always appended to a trailing Lit), no two neighbouring
   * Whitespaces (blank runs are one token), and no blank inside a Lit (a
   * Space token never joins a Lit).
   */
  predicate Shaped(args: seq<Arg>)
  {
    && (forall k :: 0 < k < |args| ==>
      !(args[k - 1].Lit? && args[k].Lit?) && !(args[k - 1] == Whitespace && args[k] == Whitespace))
    && (forall k :: 0 <= k < |args| && args[k].Lit? ==> Plain(args[k].text))
  }

  lemma PushLitShaped(args: seq<Arg>, s: string)
    requires Shaped(args) && Plain(s)
    ensures var r := PushLit(args, s); Shaped(r) && |r| > 0 && r[|r| - 1].Lit?
  {
    var r := PushLit(args, s);
    if |args| > 0 && args[|args| - 1].Lit? {
      var v := args[|args| - 1].text;
      assert Plain(v);
      assert Plain(v + s) by {
        forall m | 0 <= m < |v + s|
          ensures !Blank((v + s)[m])
        {
          if m < |v| {
            assert (v + s)[m] == v[m];
          } else {
            assert (v + s)[m] == s[m - |v|];
          }
        }
      }
      assert forall k :: 0 <= k < |args| - 1 ==> r[k] == args[k];
    } else {
      assert forall k :: 0 <= k < |args| ==> r[k] == args[k];
    }
  }

  lemma AppendShaped(args: seq<Arg>, a: Arg)
    requires Shaped(args) && !a.Lit?
    requires a == Whitespace && |args| > 0 ==> args[|args| - 1] != Whitespace
    ensures Shaped(args + [a])
  {
    var r := args + [a];
    assert forall k :: 0 <= k < |args| ==> r[k] == args[k];
  }

  /** The characters of a Literal token are not blank. */
  lemma LiteralPlain(p: string, t: (nat, Token))
    requires t.1.Literal? && TokenFits(p, t)
    ensures Plain(p[t.0..t.0 + t.1.len])
  {
    var s := p[t.0..t.0 + t.1.len];
    forall m | 0 <= m < |s|
      ensures !Blank(s[m])
    {
      assert s[m] == p[t.0 + m];
    }
  }

  /** A placeholder yields one of the named args, and never reports "Unexpected EOF". */
  lemma PlaceholderFacts(p: string, toks: Tokens, pos: nat)
    requires pos < |toks| && toks[pos].1 == LeftBrace && Fits(p, toks)
    ensures var r := Placeholder(p, toks, pos);
      && (r.Ok? ==> r.value.1 != Whitespace && !r.value.1.Lit?)
      && (r.Err? ==> r.error.kind != UnexpectedEof)
  {
    PlaceholderArg(p, toks, pos);
    PlaceholderNoEof(p, toks, pos);
  }

  lemma PlaceholderArg(p: string, toks: Tokens, pos: nat)
    requires pos < |toks| && toks[pos].1 == LeftBrace && Fits(p, toks)
    ensures var r := Placeholder(p, toks, pos); r.Ok? ==> r.value.1 != Whitespace && !r.value.1.Lit?
  {
    SkipTargetBounds(toks, pos + 1);
    var q := SkipTarget(toks, pos + 1);
    if q < |toks| && toks[q].1.Literal? {
      var j, n := toks[q].0, toks[q].1.len;
      assert TokenFits(p, toks[q]);
    }
  }

  /** The step back of `skip_spaces` always leaves a token to read. */
  lemma PlaceholderNoEof(p: string, toks: Tokens, pos: nat)
    requires pos < |toks| && toks[pos].1 == LeftBrace && Fits(p, toks)
    ensures var r := Placeholder(p, toks, pos); r.Err? ==> r.error.kind != UnexpectedEof
  {
    SkipTargetBounds(toks, pos + 1);
    var q := SkipTarget(toks, pos + 1);
    if q < |toks| && toks[q].1.Literal? {
      SkipTargetBounds(toks, q + 1);
    }
  }

  /**
   * Parsing keeps the Args Shaped and never reports "Unexpected EOF": the
   * step back of `skip_spaces` always leaves a token to read. A Whitespace
   * at the end of the Args came from the Space token just before the cursor.
   */
  lemma {:induction false} ParseShaped(p: string, toks: Tokens, pos: nat, args: seq<Arg>)
    requires pos <= |toks| && Fits(p, toks) && Merged(toks) && Shaped(args)
    requires |args| > 0 && args[|args| - 1] == Whitespace ==> 0 < pos && toks[pos - 1].1 == Space
    ensures var r := ParseFrom(p, toks, pos, args);
      && (r.Ok? ==> Shaped(r.value))
      && (r.Err? ==> r.error.kind != UnexpectedEof)
    decreases |toks| - pos, 1
  {
    if pos < |toks| {
      if toks[pos].1 == LeftBrace {
        PlaceholderShaped(p, toks, pos, args);
      } else if toks[pos].1 != RightBrace {
        TokenShaped(p, toks, pos, args);
      }
    }
  }

  /** The placeholder branch of ParseShaped. */
  lemma {:induction false} PlaceholderShaped(p: string, toks: Tokens, pos: nat, args: seq<Arg>)
    requires pos < |toks| && toks[pos].1 == LeftBrace && Fits(p, toks) && Merged(toks) && Shaped(args)
    ensures var r := ParseFrom(p, toks, pos, args);
      && (r.Ok? ==> Shaped(r.value))
      && (r.Err? ==> r.error.kind != UnexpectedEof)
    decreases |toks| - pos, 0
  {
    PlaceholderFacts(p, toks, pos);
    var r := Placeholder(p, toks, pos);
    if r.Ok? {
      AppendShaped(args, r.value.1);
      assert ParseFrom(p, toks, pos, args) == ParseFrom(p, toks, r.value.0, args + [r.value.1]);
      ParseShaped(p, toks, r.value.0, args + [r.value.1]);
    }
  }

  /** The branch of ParseShaped for a token that is neither `{` nor `}`. */
  lemma {:induction false} TokenShaped(p: string, toks: Tokens, pos: nat, args: seq<Arg>)
    requires pos < |toks| && toks[pos].1 != LeftBrace && toks[pos].1 != RightBrace
    requires Fits(p, toks) && Merged(toks) && Shaped(args)
    requires |args| > 0 && args[|args| - 1] == Whitespace ==> 0 < pos && toks[pos - 1].1 == Space
    ensures var r := ParseFrom(p, toks, pos, args);
      && (r.Ok? ==> Shaped(r.value))
      && (r.Err? ==> r.error.kind != UnexpectedEof)
    decreases |toks| - pos, 0
  {
    var t := toks[pos];
    ConsumeStep(p, toks, pos, args);
    ConsumeShaped(p, t, args);
    if pos > 0 {
      assert !(toks[pos - 1].1 == Space && t.1 == Space);
    }
    ParseShaped(p, toks, pos + 1, Consume(p, t, args));
  }

  /** A token outside a placeholder keeps the args Shaped; a Whitespace at their end comes from a Space. */
  lemma ConsumeShaped(p: string, t: (nat, Token), args: seq<Arg>)
    requires t.1 != LeftBrace && t.1 != RightBrace && TokenFits(p, t) && Shaped(args)
    requires t.1 == Space && |args| > 0 ==> args[|args| - 1] != Whitespace
    ensures var r := Consume(p, t, args);
      Shaped(r) && (|r| > 0 && r[|r| - 1] == Whitespace ==> t.1 == Space)
  {
    if t.1 == Space {
      AppendShaped(args, Whitespace);
    } else {
      TextPlain(p, t);
      PushLitShaped(args, TokenText(p, t));
    }
  }

  /** The text of a token outside a placeholder has no blank in it. */
  lemma TextPlain(p: string, t: (nat, Token))
    requires t.1 != LeftBrace && t.1 != RightBrace && t.1 != Space && TokenFits(p, t)
    ensures Plain(TokenText(p, t))
  {
    if t.1.Literal? {
      LiteralPlain(p, t);
    }
  }

  /**
   * What `parse` guarantees of a whole pattern: a character that is neither
   * blank nor printable ASCII is reported at the first such offset; any
   * other failure is a token error, never "Unexpected EOF"; and a success
   * is Shaped.
   */
  lemma CompileFacts(p: string)
    ensures var r := Compile(p, []);
      && ((exists k :: 0 <= k < |p| && Bad(p[k])) ==>
        r.Err? && r.error.kind == NotAscii && r.error.offset < |p| && Bad(p[r.error.offset]) &&
        forall m :: 0 <= m < r.error.offset ==> !Bad(p[m]))
      && (r.Err? ==> r.error.kind != UnexpectedEof)
      && (r.Ok? ==> Shaped(r.value))
  {
    LexFacts(p);
    if Lex(p).Ok? {
      ParseShaped(p, Lex(p).value, 0, []);
    }
  }

  /** The token an error of kind `kind` is reported at, as `parse` checks it inside a placeholder. */
  predicate ErrorFits(p: string, t: (nat, Token), kind: ErrorKind)
  {
    match kind
    case ExpectedType => !t.1.Literal?
    case UnknownType => t.1.Literal? && t.0 + t.1.len <= |p| && TagArg(p[t.0..t.0 + t.1.len]).None?
    case UnexpectedToken => t.1 != RightBrace
    case _ => false
  }

  /**
   * Where a placeholder fails: at a token at or after its `{`. Where
   * `skip_spaces` lands after the `{`, a token that is no Literal gives
   * "Expected type" and a Literal naming no type gives "Unknown type"; where
   * it lands after the tag, a token other than `}` gives "Unexpected token".
   * No other error, "Unexpected EOF" included, can occur.
   */
  lemma PlaceholderErrors(p: string, toks: Tokens, pos: nat)
    requires pos < |toks| && toks[pos].1 == LeftBrace && Fits(p, toks)
    ensures var r := Placeholder(p, toks, pos);
      r.Err? ==> exists k :: pos <= k < |toks| && toks[k].0 == r.error.offset && ErrorFits(p, toks[k], r.error.kind)
  {
    SkipTargetBounds(toks, pos + 1);
    var q := SkipTarget(toks, pos + 1);
    var res := Placeholder(p, toks, pos);
    if !toks[q].1.Literal? {
      assert res == Err(CompileError(toks[q].0, ExpectedType));
      assert ErrorFits(p, toks[q], ExpectedType);
    } else {
      assert TokenFits(p, toks[q]);
      var j, n := toks[q].0, toks[q].1.len;
      if TagArg(p[j..j + n]).None? {
        assert res == Err(CompileError(j, UnknownType));
        assert ErrorFits(p, toks[q], UnknownType);
      } else {
        SkipTargetBounds(toks, q + 1);
        var r := SkipTarget(toks, q + 1);
        if toks[r].1 != RightBrace {
          assert res == Err(CompileError(toks[r].0, UnexpectedToken));
          assert ErrorFits(p, toks[r], UnexpectedToken);
        }
      }
    }
  }

  /** The text of the Literal token `t`. */
  function TagText(p: string, t: (nat, Token)): string
    requires t.1.Literal? && TokenFits(p, t)
  {
    p[t.0..t.0 + t.1.len]
  }

  /**
   * A placeholder read in full: after the `{` at `pos`, only Spaces up to a
   * Literal naming a type at `q`, then only Spaces up to a `}` at `r`. The
   * cursor ends just past that `}` and the arg is the one the tag names.
   */
  lemma PlaceholderReads(p: string, toks: Tokens, pos: nat, q: nat, r: nat)
    requires pos < q < r < |toks| && toks[pos].1 == LeftBrace && Fits(p, toks)
    requires forall m :: pos < m < q ==> toks[m].1 == Space
    requires forall m :: q < m < r ==> toks[m].1 == Space
    requires toks[q].1.Literal? && TagArg(TagText(p, toks[q])).Some?
    requires toks[r].1 == RightBrace
    ensures Placeholder(p, toks, pos) == Ok((r + 1, TagArg(TagText(p, toks[q])).value))
  {
    SkipTargetAt(toks, pos + 1, q);
    SkipTargetAt(toks, q + 1, r);
  }

  /**
   * The converse: a placeholder that is read ends just past a `}`, and
   * between its `{` and that `}` lie Spaces, one Literal naming the arg,
   * and Spaces again.
   */
  lemma PlaceholderOk(p: string, toks: Tokens, pos: nat)
    requires pos < |toks| && toks[pos].1 == LeftBrace && Fits(p, toks)
    ensures var r := Placeholder(p, toks, pos);
      r.Ok? ==>
        var q, n := SkipTarget(toks, pos + 1), r.value.0;
        && pos < q < n - 1 < |toks| && toks[n - 1].1 == RightBrace
        && (forall m :: pos < m < q ==> toks[m].1 == Space)
        && (forall m :: q < m < n - 1 ==> toks[m].1 == Space)
        && toks[q].1.Literal? && TokenFits(p, toks[q])
        && TagArg(TagText(p, toks[q])) == Some(r.value.1)
  {
    SkipTargetBounds(toks, pos + 1);
    var q := SkipTarget(toks, pos + 1);
    var res := Placeholder(p, toks, pos);
    if res.Ok? {
      assert q < |toks| && toks[q].1.Literal?;
      assert TokenFits(p, toks[q]);
      SkipTargetBounds(toks, q + 1);
      var r := SkipTarget(toks, q + 1);
      assert r < |toks| && toks[r].1 == RightBrace;
      assert res == Ok((r + 1, TagArg(TagText(p, toks[q])).value));
      SkipTargetPassesSpaces(toks, pos + 1);
      SkipTargetPassesSpaces(toks, q + 1);
    }
  }

  /** No single brace among the tokens from `pos` up to `k`. */
  predicate NoBraceBetween(toks: Tokens, pos: nat, k: nat)
  {
    forall m :: pos <= m < k && m < |toks| ==> toks[m].1 != LeftBrace && toks[m].1 != RightBrace
  }

  /** Parsing runs through tokens other than `{` and `}` without failing, to the same parse from `k` on after some args. */
  lemma {:induction false} ParseThrough(p: string, toks: Tokens, pos: nat, k: nat, args: seq<Arg>)
    requires pos <= k <= |toks| && Fits(p, toks) && NoBraceBetween(toks, pos, k)
    ensures exists a :: ParseFrom(p, toks, pos, args) == ParseFrom(p, toks, k, a)
    decreases k - pos
  {
    if pos == k {
      assert ParseFrom(p, toks, pos, args) == ParseFrom(p, toks, k, args);
    } else {
      ConsumeStep(p, toks, pos, args);
      ParseThrough(p, toks, pos + 1, k, Consume(p, toks[pos], args));
    }
  }

  /**
   * So the first single brace ahead decides: a `}` is an unexpected token at
   * its own offset, and a `{` whose placeholder fails gives that failure.
   */
  lemma FirstBraceDecides(p: string, toks: Tokens, pos: nat, k: nat, args: seq<Arg>)
    requires pos <= k < |toks| && Fits(p, toks) && NoBraceBetween(toks, pos, k)
    ensures toks[k].1 == RightBrace ==> ParseFrom(p, toks, pos, args) == Err(CompileError(toks[k].0, UnexpectedToken))
    ensures toks[k].1 == LeftBrace && Placeholder(p, toks, k).Err? ==>
      ParseFrom(p, toks, pos, args) == Err(Placeholder(p, toks, k).error)
  {
    ParseThrough(p, toks, pos, k, args);
    var a :| ParseFrom(p, toks, pos, args) == ParseFrom(p, toks, k, a);
  }

  /**
   * In an accepted pattern, a `}` with no single brace before it closes no
   * placeholder: `parse` fails with "Unexpected token" at its offset.
   */
  lemma StrayCloseFails(p: string, k: nat, prior: seq<Arg>)
    requires Lex(p).Ok? && k < |Lex(p).value| && Lex(p).value[k].1 == RightBrace && NoBraceBetween(Lex(p).value, 0, k)
    ensures Compile(p, prior) == Err(CompileError(Lex(p).value[k].0, UnexpectedToken))
  {
    LexFacts(p);
    FirstBraceDecides(p, Lex(p).value, 0, k, prior);
  }

  /**
   * In an accepted pattern, the first placeholder fails the whole `parse`
   * when it fails, with its own error, which lies at a token at or after its
   * `{`. (The tokens always fit the pattern, by LexFacts.)
   */
  lemma FirstPlaceholderFails(p: string, k: nat, prior: seq<Arg>)
    requires Lex(p).Ok? && k < |Lex(p).value| && Lex(p).value[k].1 == LeftBrace && NoBraceBetween(Lex(p).value, 0, k)
    requires Fits(p, Lex(p).value) && Placeholder(p, Lex(p).value, k).Err?
    ensures var e := Placeholder(p, Lex(p).value, k).error;
      && Compile(p, prior) == Err(e)
      && exists m :: k <= m < |Lex(p).value| && Lex(p).value[m].0 == e.offset && ErrorFits(p, Lex(p).value[m], e.kind)
  {
    LexFacts(p);
    FirstBraceDecides(p, Lex(p).value, 0, k, prior);
    PlaceholderErrors(p, Lex(p).value, k);
  }

  /** How a placeholder names each arg it can produce. */
  function TagName(a: Arg): string
  {
    match a
    case Int(I8) => "i8"
    case Int(U8) => "u8"
    case Int(I16) => "i16"
    case Int(U16) => "u16"
    case Int(I32) => "i32"
    case Int(U32) => "u32"
    case Int(I64) => "i64"
    case Int(U64) => "u64"
    case Int(I) => "i"
    case Int(U) => "u"
    case Float(false) => "f32"
    case Float(true) => "f64"
    case Strin => "s"
    case _ => ""
  }

  /**
   * The table of placeholder names is one-to-one: every name it knows maps
   * to an arg that is neither Lit nor Whitespace and whose name it is, and
   * every such arg has a name that maps back to it.
   */
  lemma TagArgNames(tag: string)
    ensures TagArg(tag).Some? ==>
      var a := TagArg(tag).value; !a.Lit? && a != Whitespace && TagName(a) == tag
  {
  }

  lemma TagNameArgs(a: Arg)
    requires !a.Lit? && a != Whitespace
    ensures TagArg(TagName(a)) == Some(a)
  {
  }

  /** An integer placeholder is signed exactly when its name starts with `i`. */
  lemma SignedNames(tag: string)
    requires TagArg(tag).Some? && TagArg(tag).value.Int?
    ensures TagArg(tag).value.ty.Signed() <==> tag[0] == 'i'
  {
  }

  /** `{{{` is an escaped brace followed by an opening brace: `{{` is matched first. */
  lemma BracesExample()
    ensures Lex("{{{") == Ok([(0, LeftBraceBrace), (2, LeftBrace)])
  {
    var p := "{{{";
    var t0: Tokens := [];
    var t1: Tokens := t0 + [(0, LeftBraceBrace)];
    var t2: Tokens := t1 + [(2, LeftBrace)];
    assert !Bad(p[0]) && Advance(p, 0, t0) == (2, t1);
    assert !Bad(p[2]) && Advance(p, 2, t1) == (3, t2);
    assert LexFrom(p, 0, t0) == LexFrom(p, 2, t1) == LexFrom(p, 3, t2) == Ok(t2);
    assert Lex(p) == LexFrom(p, 0, t0);
    assert t2 == [(0, LeftBraceBrace), (2, LeftBrace)];
  }

  /** A lone `{` has no type after it: the step back lands on the `{` itself. */
  lemma OpenOnlyExample()
    ensures Compile("{", []) == Err(CompileError(0, ExpectedType))
  {
    var p := "{";
    var t0: Tokens := [];
    var toks: Tokens := t0 + [(0, LeftBrace)];
    assert !Bad(p[0]) && Advance(p, 0, t0) == (1, toks);
    assert Lex(p) == LexFrom(p, 0, t0) == LexFrom(p, 1, toks) == Ok(toks);
    LexFacts(p);
    assert SkipTarget(toks, 1) == 0;
    assert Placeholder(p, toks, 0) == Err(CompileError(0, ExpectedType));
  }

  /** A lone `}` is an unexpected token at offset 0. */
  lemma CloseOnlyExample()
    ensures Compile("}", []) == Err(CompileError(0, UnexpectedToken))
  {
    var p := "}";
    var t0: Tokens := [];
    var toks: Tokens := t0 + [(0, RightBrace)];
    assert !Bad(p[0]) && Advance(p, 0, t0) == (1, toks);
    assert Lex(p) == LexFrom(p, 0, t0) == LexFrom(p, 1, toks) == Ok(toks);
    LexFacts(p);
  }

  /** One turn of the loop of `tokenize`, taken in a worked example. */
  lemma LexStep(p: string, i: nat, acc: Tokens, next: (nat, Tokens))
    requires i < |p| && !Bad(p[i]) && Advance(p, i, acc) == next
    ensures LexFrom(p, i, acc) == LexFrom(p, next.0, next.1)
  {
  }

  /** The tokens of `{u32} {s}`: the characters of each tag form one Literal. */
  lemma PlaceholdersLex()
    ensures Lex("{u32} {s}") == Ok([(0, LeftBrace), (1, Literal(3)), (4, RightBrace), (5, Space), (6, LeftBrace), (7, Literal(1)), (8, RightBrace)])
  {
    var p := "{u32} {s}";
    PlaceholdersLexHead(p);
    PlaceholdersLexTail(p);
  }

  lemma PlaceholdersLexHead(p: string)
    requires p == "{u32} {s}"
    ensures LexFrom(p, 0, []) == LexFrom(p, 5, [(0, LeftBrace), (1, Literal(3)), (4, RightBrace)])
  {
    var e: Tokens := [];
    var t0: Tokens := e + [(0, LeftBrace)];
    var t1: Tokens := t0 + [(1, Literal(1))];
    var t2: Tokens := t0 + [(1, Literal(2))];
    var t3: Tokens := t0 + [(1, Literal(3))];
    var t4: Tokens := t3 + [(4, RightBrace)];
    LexStep(p, 0, e, (1, t0));
    LexStep(p, 1, t0, (2, t1));
    LexStep(p, 2, t1, (3, t2));
    LexStep(p, 3, t2, (4, t3));
    LexStep(p, 4, t3, (5, t4));
    assert t4 == [(0, LeftBrace), (1, Literal(3)), (4, RightBrace)];
  }

  lemma PlaceholdersLexTail(p: string)
    requires p == "{u32} {s}"
    ensures LexFrom(p, 5, [(0, LeftBrace), (1, Literal(3)), (4, RightBrace)]) ==
      Ok([(0, LeftBrace), (1, Literal(3)), (4, RightBrace), (5, Space), (6, LeftBrace), (7, Literal(1)), (8, RightBrace)])
  {
    var t4: Tokens := [(0, LeftBrace), (1, Literal(3)), (4, RightBrace)];
    var t5: Tokens := t4 + [(5, Space)];
    var t6: Tokens := t5 + [(6, LeftBrace)];
    var t7: Tokens := t6 + [(7, Literal(1))];
    var toks: Tokens := t7 + [(8, RightBrace)];
    LexStep(p, 5, t4, (6, t5));
    LexStep(p, 6, t5, (7, t6));
    LexStep(p, 7, t6, (8, t7));
    LexStep(p, 8, t7, (9, toks));
    assert toks == [(0, LeftBrace), (1, Literal(3)), (4, RightBrace), (5, Space), (6, LeftBrace), (7, Literal(1)), (8, RightBrace)];
  }

  /** The two placeholders of `{u32} {s}`: each is read up to its `}`. */
  lemma PlaceholdersRead(p: string, toks: Tokens)
    requires p == "{u32} {s}" && Lex(p) == Ok(toks)
    ensures Fits(p, toks) && |toks| == 7 && toks[0].1 == LeftBrace && toks[3].1 == Space && toks[4].1 == LeftBrace
    ensures Placeholder(p, toks, 0) == Ok((3, Int(U32)))
    ensures Placeholder(p, toks, 4) == Ok((7, Strin))
  {
    PlaceholdersLex();
    LexFacts(p);
    FirstPlaceholder(p, toks);
    SecondPlaceholder(p, toks);
  }

  lemma FirstPlaceholder(p: string, toks: Tokens)
    requires p == "{u32} {s}" && Fits(p, toks)
    requires toks == [(0, LeftBrace), (1, Literal(3)), (4, RightBrace), (5, Space), (6, LeftBrace), (7, Literal(1)), (8, RightBrace)]
    ensures Placeholder(p, toks, 0) == Ok((3, Int(U32)))
  {
    TagNameArgs(Int(U32));
    assert p[1..4] == TagName(Int(U32));
    assert SkipTarget(toks, 1) == 1 && SkipTarget(toks, 2) == 2;
  }

  lemma SecondPlaceholder(p: string, toks: Tokens)
    requires p == "{u32} {s}" && Fits(p, toks)
    requires toks == [(0, LeftBrace), (1, Literal(3)), (4, RightBrace), (5, Space), (6, LeftBrace), (7, Literal(1)), (8, RightBrace)]
    ensures Placeholder(p, toks, 4) == Ok((7, Strin))
  {
    TagNameArgs(Strin);
    assert p[7..8] == TagName(Strin);
    assert SkipTarget(toks, 5) == 5 && SkipTarget(toks, 6) == 6;
  }

  /** `{u32} {s}` reads a u32, the blank between, and a string. */
  lemma PlaceholdersExample()
    ensures Compile("{u32} {s}", []) == Ok([Int(U32), Whitespace, Strin])
  {
    var p := "{u32} {s}";
    PlaceholdersLex();
    var toks := Lex(p).value;
    PlaceholdersRead(p, toks);
    var a0: seq<Arg> := [];
    var a1: seq<Arg> := a0 + [Int(U32)];
    assert Compile(p, a0) == ParseFrom(p, toks, 0, a0) == ParseFrom(p, toks, 3, a1);
    assert a1 == [Int(U32)];
    PlaceholdersTail(p, toks);
  }

  /** After the first placeholder of `{u32} {s}`: the blank, then the second placeholder. */
  lemma PlaceholdersTail(p: string, toks: Tokens)
    requires p == "{u32} {s}" && Fits(p, toks) && |toks| == 7 && toks[3].1 == Space && toks[4].1 == LeftBrace
    requires Placeholder(p, toks, 4) == Ok((7, Strin))
    ensures ParseFrom(p, toks, 3, [Int(U32)]) == Ok([Int(U32), Whitespace, Strin])
  {
    var a1: seq<Arg> := [Int(U32)];
    var a2: seq<Arg> := a1 + [Whitespace];
    var a3: seq<Arg> := a2 + [Strin];
    ConsumeStep(p, toks, 3, a1);
    assert ParseFrom(p, toks, 4, a2) == ParseFrom(p, toks, 7, a3) == Ok(a3);
    assert a3 == [Int(U32), Whitespace, Strin];
  }

  /** The tokens of `{{a}}`: an escaped brace, a one-character Literal, an escaped brace. */
  lemma EscapesLex()
    ensures Lex("{{a}}") == Ok([(0, LeftBraceBrace), (2, Literal(1)), (3, RightBraceBrace)])
  {
    var p := "{{a}}";
    var e: Tokens := [];
    var t0: Tokens := e + [(0, LeftBraceBrace)];
    var t1: Tokens := t0 + [(2, Literal(1))];
    var toks: Tokens := t1 + [(3, RightBraceBrace)];
    assert !Bad(p[0]) && Advance(p, 0, e) == (2, t0);
    assert !Bad(p[2]) && Advance(p, 2, t0) == (3, t1);
    assert !Bad(p[3]) && Advance(p, 3, t1) == (5, toks);
    assert Lex(p) == LexFrom(p, 0, e) == LexFrom(p, 2, t0) == LexFrom(p, 3, t1) == LexFrom(p, 5, toks) == Ok(toks);
    assert toks == [(0, LeftBraceBrace), (2, Literal(1)), (3, RightBraceBrace)];
  }

  /** The tokens of `{{literal}} {u8}`: escaped braces around one Literal, a Space, then a placeholder. */
  lemma LiteralPatternLex()
    ensures Lex("{{literal}} {u8}") == Ok([(0, LeftBraceBrace), (2, Literal(7)), (9, RightBraceBrace),
      (11, Space), (12, LeftBrace), (13, Literal(2)), (15, RightBrace)])
  {
    var p := "{{literal}} {u8}";
    var toks: Tokens := [(0, LeftBraceBrace), (2, Literal(7)), (9, RightBraceBrace),
      (11, Space), (12, LeftBrace), (13, Literal(2)), (15, RightBrace)];
    LiteralPatternFits(p, toks);
    LiteralPatternTiles(p, toks);
    LexExactly(p, toks);
  }

  lemma LiteralPatternFits(p: string, toks: Tokens)
    requires p == "{{literal}} {u8}"
    requires toks == [(0, LeftBraceBrace), (2, Literal(7)), (9, RightBraceBrace), (11, Space), (12, LeftBrace), (13, Literal(2)), (15, RightBrace)]
    ensures Fits(p, toks) && Greedy(p, toks)
  {
    assert p[2..9] == "literal" && p[13..15] == "u8";
    forall k | 0 <= k < |toks|
      ensures TokenFits(p, toks[k]) && GreedyToken(p, toks[k])
    {
      if k == 1 {
        forall m | 2 <= m < 9
          ensures Ordinary(p[m])
        {
          assert p[m] == p[2..9][m - 2];
        }
      } else if k == 5 {
        assert p[13] == 'u' && p[14] == '8';
      }
    }
  }

  lemma LiteralPatternTiles(p: string, toks: Tokens)
    requires p == "{{literal}} {u8}"
    requires toks == [(0, LeftBraceBrace), (2, Literal(7)), (9, RightBraceBrace), (11, Space), (12, LeftBrace), (13, Literal(2)), (15, RightBrace)]
    ensures Merged(toks) && Tiles(p, toks, |p|)
  {
  }

  /** The placeholder of `{{literal}} {u8}` reads the tag `u8` and its `}`. */
  lemma LiteralPatternPlaceholder(p: string, toks: Tokens)
    requires p == "{{literal}} {u8}" && Fits(p, toks)
    requires toks == [(0, LeftBraceBrace), (2, Literal(7)), (9, RightBraceBrace), (11, Space), (12, LeftBrace), (13, Literal(2)), (15, RightBrace)]
    ensures Placeholder(p, toks, 4) == Ok((7, Int(U8)))
  {
    TagNameArgs(Int(U8));
    assert p[13..15] == TagName(Int(U8));
    assert SkipTarget(toks, 5) == 5 && SkipTarget(toks, 6) == 6;
  }

  /** The texts of the tokens of `{{literal}} {u8}` before its blank. */
  lemma LiteralPatternTexts(p: string, toks: Tokens)
    requires p == "{{literal}} {u8}" && Fits(p, toks)
    requires toks == [(0, LeftBraceBrace), (2, Literal(7)), (9, RightBraceBrace), (11, Space), (12, LeftBrace), (13, Literal(2)), (15, RightBrace)]
    ensures TokenText(p, toks[0]) + TokenText(p, toks[1]) + TokenText(p, toks[2]) == "{literal}"
  {
    assert TokenText(p, toks[0]) == "{" && TokenText(p, toks[2]) == "}";
    assert TokenText(p, toks[1]) == p[2..9] == "literal";
  }

  /** Tokens other than braces and blanks, pushed onto nothing, give one Lit of their texts. */
  lemma ConsumeTexts(p: string, toks: Tokens)
    requires Fits(p, toks) && |toks| >= 3
    requires forall k :: 0 <= k < 3 ==> toks[k].1 != LeftBrace && toks[k].1 != RightBrace && toks[k].1 != Space
    ensures ParseFrom(p, toks, 0, []) ==
      ParseFrom(p, toks, 3, [Lit(TokenText(p, toks[0]) + TokenText(p, toks[1]) + TokenText(p, toks[2]))])
  {
    var s0, s1, s2 := TokenText(p, toks[0]), TokenText(p, toks[1]), TokenText(p, toks[2]);
    ConsumeStep(p, toks, 0, []);
    assert Consume(p, toks[0], []) == [Lit(s0)];
    ConsumeStep(p, toks, 1, [Lit(s0)]);
    ConsumeLit(p, toks[1], s0);
    ConsumeStep(p, toks, 2, [Lit(s0 + s1)]);
    ConsumeLit(p, toks[2], s0 + s1);
  }

  /** Text pushed after a single Lit joins it. */
  lemma ConsumeLit(p: string, t: (nat, Token), v: string)
    requires t.1 != LeftBrace && t.1 != RightBrace && t.1 != Space && TokenFits(p, t)
    ensures Consume(p, t, [Lit(v)]) == [Lit(v + TokenText(p, t))]
  {
    PushLitOne(v, TokenText(p, t));
  }

  /**
   * `{{literal}} {u8}` compiles to a Lit `{literal}`, a Whitespace and a
   * `u8`: the escaped braces join the literal text, and the blank before the
   * placeholder is an arg of its own.
   */
  lemma LiteralPatternExample()
    ensures Compile("{{literal}} {u8}", []) == Ok([Lit("{literal}"), Whitespace, Int(U8)])
  {
    var p := "{{literal}} {u8}";
    LiteralPatternLex();
    var toks := Lex(p).value;
    LexFacts(p);
    LiteralPatternTexts(p, toks);
    ConsumeTexts(p, toks);
    LiteralPatternTail(p, toks);
  }

  /** After the escaped literal, the blank and the placeholder of `{{literal}} {u8}` close the parse. */
  lemma LiteralPatternTail(p: string, toks: Tokens)
    requires p == "{{literal}} {u8}" && Fits(p, toks)
    requires toks == [(0, LeftBraceBrace), (2, Literal(7)), (9, RightBraceBrace), (11, Space), (12, LeftBrace), (13, Literal(2)), (15, RightBrace)]
    ensures ParseFrom(p, toks, 3, [Lit("{literal}")]) == Ok([Lit("{literal}"), Whitespace, Int(U8)])
  {
    LiteralPatternPlaceholder(p, toks);
    var a3: seq<Arg> := [Lit("{literal}")];
    var a4: seq<Arg> := a3 + [Whitespace];
    ConsumeStep(p, toks, 3, a3);
    assert ParseFrom(p, toks, 3, a3) == ParseFrom(p, toks, 4, a4);
    var a5: seq<Arg> := a4 + [Int(U8)];
    assert ParseFrom(p, toks, 4, a4) == ParseFrom(p, toks, 7, a5) == Ok(a5);
    assert a5 == [Lit("{literal}"), Whitespace, Int(U8)];
  }

  lemma PushLitOne(v: string, s: string)
    ensures PushLit([Lit(v)], s) == [Lit(v + s)]
  {
    var a := [Lit(v)];
    assert a[..0] == [];
  }

  /** What each token of `{{a}}` adds: `{`, then `a`, then `}`, all to one Lit. */
  lemma EscapesConsume(p: string, toks: Tokens)
    requires p == "{{a}}" && toks == [(0, LeftBraceBrace), (2, Literal(1)), (3, RightBraceBrace)] && Fits(p, toks)
    ensures Consume(p, toks[0], []) == [Lit("{")]
    ensures Consume(p, toks[1], [Lit("{")]) == [Lit("{a")]
    ensures Consume(p, toks[2], [Lit("{a")]) == [Lit("{a}")]
  {
    PushLitOne("{", "a");
    assert p[2..3] == "a" && "{" + "a" == "{a";
    PushLitOne("{a", "}");
    assert "{a" + "}" == "{a}";
  }

  /** Escaped braces and the text between them end up in one Lit: `{{a}}` is the single Lit `{a}`. */
  lemma EscapesExample()
    ensures Compile("{{a}}", []) == Ok([Lit("{a}")])
  {
    var p := "{{a}}";
    EscapesLex();
    var toks := Lex(p).value;
    LexFacts(p);
    EscapesConsume(p, toks);
    var a0: seq<Arg> := [];
    var a1: seq<Arg> := [Lit("{")];
    var a2: seq<Arg> := [Lit("{a")];
    var a3: seq<Arg> := [Lit("{a}")];
    ConsumeStep(p, toks, 0, a0);
    ConsumeStep(p, toks, 1, a1);
    ConsumeStep(p, toks, 2, a2);
    assert Compile(p, a0) == ParseFrom(p, toks, 0, a0);
    assert ParseFrom(p, toks, 3, a3) == Ok(a3);
  }
}
