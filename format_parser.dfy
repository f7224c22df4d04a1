/**
 * The format-spec compiler of scan_mac/src/lib.rs: `Parser::tokenize` lexes a
 * pattern such as `"{u32} {s}"` into offset-tagged tokens, and `Parser::parse`
 * turns those into the list of `Arg`s the generated reader runs.
 *
 * Both work on the characters of the pattern; an offset is a character index.
 * Every character a successful tokenize accepts is ASCII, so the byte slices
 * the source takes (`bytes.slice(i, i + len)`) are character slices here.
 */
module Format {
  import opened Wrappers
  import opened FormatUtil

  /** `IntType`: the integer widths a placeholder can name. */
  datatype IntType = I8 | U8 | I16 | U16 | I32 | U32 | I64 | U64 | I | U {
    /** `IntType::signed`. */
    predicate Signed()
    {
      match this
      case I8 | I16 | I32 | I64 | I => true
      case U8 | U16 | U32 | U64 | U => false
    }
  }

  /** `Arg`: one step of the generated reader. */
  datatype Arg = Lit(text: string) | Whitespace | Int(ty: IntType) | Float(double: bool) | Strin

  /** The messages `err` reports. */
  datatype ErrorKind = NotAscii | UnexpectedToken | ExpectedType | UnexpectedEof | UnknownType

  function Message(k: ErrorKind): string
  {
    match k
    case NotAscii => "expected Ascii character"
    case UnexpectedToken => "Unexpected token"
    case ExpectedType => "Expected type"
    case UnexpectedEof => "Unexpected EOF"
    case UnknownType => "Unknown type"
  }

  /** What `err(i, msg)` returns: the failure, with the offset `i` it reports. */
  datatype CompileError = CompileError(offset: nat, kind: ErrorKind)

  /** Each kind of error has a message of its own, so a diagnostic tells which check failed. */
  lemma MessageDistinct(a: ErrorKind, b: ErrorKind)
    ensures Message(a) == Message(b) <==> a == b
    ensures 0 < |Message(a)|
  {
  }

  /** The offset `parse` reports when a placeholder's closing `}` is missing at the end: the start. */
  const CLOSE_EOF_OFFSET: nat := 0

  predicate Blank(c: char)
  {
    c == ' ' || c == '\t'
  }

  predicate Printable(c: char)
  {
    0x20 <= c as int <= 0x7E
  }

  /** A character tokenize rejects: neither blank nor printable ASCII. */
  predicate Bad(c: char)
  {
    !Blank(c) && !Printable(c)
  }

  /** A character that becomes part of a Literal token. */
  predicate Ordinary(c: char)
  {
    Printable(c) && !Blank(c) && c != '{' && c != '}' && c != ':'
  }

  /** A blank at `i`: it joins a Space token just before, or starts one. */
  function AddSpace(acc: Tokens, i: nat): Tokens
  {
    if |acc| > 0 && acc[|acc| - 1].1 == Space then acc else acc + [(i, Space)]
  }

  /** An ordinary character at `i`: it lengthens a Literal token just before, or starts one. */
  function AddLiteral(acc: Tokens, i: nat): Tokens
  {
    if |acc| > 0 && acc[|acc| - 1].1.Literal? then
      acc[..|acc| - 1] + [(acc[|acc| - 1].0, Literal(acc[|acc| - 1].1.len + 1))]
    else
      acc + [(i, Literal(1))]
  }

  /**
   * One turn of the loop of `tokenize` on an accepted character `p[i]`: where
   * lexing goes on, and the tokens after it.
   */
  function Advance(p: string, i: nat, acc: Tokens): (r: (nat, Tokens))
    requires i < |p| && !Bad(p[i])
    ensures i < r.0 <= |p|
    ensures forall k :: i <= k < r.0 ==> !Bad(p[k])
  {
    if Blank(p[i]) then (i + 1, AddSpace(acc, i))
    else if p[i] == '{' && i + 1 < |p| && p[i + 1] == '{' then (i + 2, acc + [(i, LeftBraceBrace)])
    else if p[i] == '}' && i + 1 < |p| && p[i + 1] == '}' then (i + 2, acc + [(i, RightBraceBrace)])
    else if p[i] == ':' then (i + 1, acc + [(i, Colon)])
    else if p[i] == '{' then (i + 1, acc + [(i, LeftBrace)])
    else if p[i] == '}' then (i + 1, acc + [(i, RightBrace)])
    else (i + 1, AddLiteral(acc, i))
  }

  /**
   * Lexing the pattern `p` from character `i` on, after the tokens `acc`: it
   * fails at a rejected character at or after `i`, and succeeds only when
   * there is none.
   */
  function LexFrom(p: string, i: nat, acc: Tokens): (r: Result<Tokens, CompileError>)
    requires i <= |p|
    ensures r.Err? ==> r.error.kind == NotAscii && i <= r.error.offset < |p| && Bad(p[r.error.offset])
    ensures r.Ok? ==> forall k :: i <= k < |p| ==> !Bad(p[k])
    decreases |p| - i
  {
    if i == |p| then Ok(acc)
    else if Bad(p[i]) then Err(CompileError(i, NotAscii))
    else
      var next := Advance(p, i, acc);
      LexFrom(p, next.0, next.1)
  }

  /** The token at offset `t.0` stands for exactly the characters of `p` its kind says. */
  predicate TokenFits(p: string, t: (nat, Token))
  {
    match t.1
    case Space => t.0 < |p| && Blank(p[t.0])
    case Literal(n) => 1 <= n && t.0 + n <= |p| && forall m :: t.0 <= m < t.0 + n ==> Ordinary(p[m])
    case Colon => t.0 < |p| && p[t.0] == ':'
    case LeftBrace => t.0 < |p| && p[t.0] == '{'
    case RightBrace => t.0 < |p| && p[t.0] == '}'
    case LeftBraceBrace => t.0 + 1 < |p| && p[t.0] == '{' && p[t.0 + 1] == '{'
    case RightBraceBrace => t.0 + 1 < |p| && p[t.0] == '}' && p[t.0 + 1] == '}'
  }

  predicate Fits(p: string, toks: Tokens)
  {
    forall k :: 0 <= k < |toks| ==> TokenFits(p, toks[k])
  }

  /** Runs are merged: no two neighbouring tokens are both Space or both Literal. */
  predicate Merged(toks: Tokens)
  {
    forall k :: 0 < k < |toks| ==>
      !(toks[k - 1].1 == Space && toks[k].1 == Space) &&
      !(toks[k - 1].1.Literal? && toks[k].1.Literal?)
  }

  /** The state `tokenize` keeps at character `i`: a trailing Literal ends exactly at `i`. */
  predicate LexState(p: string, i: nat, acc: Tokens)
  {
    i <= |p| && Fits(p, acc) && Merged(acc) &&
    (|acc| > 0 && acc[|acc| - 1].1.Literal? ==> acc[|acc| - 1].0 + acc[|acc| - 1].1.len == i)
  }

  /** The first character at or after `i` that tokenize rejects, or |p|. */
  function FirstBad(p: string, i: nat): (k: nat)
    requires i <= |p|
    ensures i <= k <= |p|
    ensures forall m :: i <= m < k ==> !Bad(p[m])
    ensures k < |p| ==> Bad(p[k])
    decreases |p| - i
  {
    if i == |p| || Bad(p[i]) then i else FirstBad(p, i + 1)
  }

  lemma FitsAppend(p: string, acc: Tokens, t: (nat, Token))
    requires Fits(p, acc) && TokenFits(p, t)
    ensures Fits(p, acc + [t])
  {
    forall k | 0 <= k < |acc| + 1
      ensures TokenFits(p, (acc + [t])[k])
    {
      if k < |acc| {
        assert (acc + [t])[k] == acc[k];
      }
    }
  }

  lemma MergedAppend(acc: Tokens, t: (nat, Token))
    requires Merged(acc)
    requires |acc| > 0 ==> !(acc[|acc| - 1].1 == Space && t.1 == Space)
    requires |acc| > 0 ==> !(acc[|acc| - 1].1.Literal? && t.1.Literal?)
    ensures Merged(acc + [t])
  {
    var r := acc + [t];
    forall k | 0 < k < |r|
      ensures !(r[k - 1].1 == Space && r[k].1 == Space) && !(r[k - 1].1.Literal? && r[k].1.Literal?)
    {
      if k < |acc| {
        assert r[k - 1] == acc[k - 1] && r[k] == acc[k];
      } else {
        assert r[k - 1] == acc[|acc| - 1] && r[k] == t;
      }
    }
  }

  lemma AddSpaceKeeps(p: string, i: nat, acc: Tokens)
    requires LexState(p, i, acc) && i < |p| && Blank(p[i])
    ensures LexState(p, i + 1, AddSpace(acc, i))
  {
    if !(|acc| > 0 && acc[|acc| - 1].1 == Space) {
      FitsAppend(p, acc, (i, Space));
      MergedAppend(acc, (i, Space));
    }
  }

  lemma AddLiteralKeeps(p: string, i: nat, acc: Tokens)
    requires LexState(p, i, acc) && i < |p| && Ordinary(p[i])
    ensures LexState(p, i + 1, AddLiteral(acc, i))
  {
    if |acc| > 0 && acc[|acc| - 1].1.Literal? {
      DropLast(p, acc);
      LiteralGrowsKeeps(p, acc[..|acc| - 1], acc[|acc| - 1].0, acc[|acc| - 1].1.len);
    } else {
      FitsAppend(p, acc, (i, Literal(1)));
      MergedAppend(acc, (i, Literal(1)));
    }
  }

  lemma LiteralGrowsKeeps(p: string, init: Tokens, j: nat, n: nat)
    requires Fits(p, init) && Merged(init) && (|init| > 0 ==> !init[|init| - 1].1.Literal?)
    requires TokenFits(p, (j, Literal(n))) && j + n < |p| && Ordinary(p[j + n])
    ensures LexState(p, j + n + 1, init + [(j, Literal(n + 1))])
  {
    LiteralGrows(p, j, n);
    FitsAppend(p, init, (j, Literal(n + 1)));
    MergedAppend(init, (j, Literal(n + 1)));
  }

  /** Dropping the last token keeps the tokens fitting and merged; it had no Literal before it. */
  lemma DropLast(p: string, acc: Tokens)
    requires Fits(p, acc) && Merged(acc) && |acc| > 0 && acc[|acc| - 1].1.Literal?
    ensures var init := acc[..|acc| - 1];
      && Fits(p, init) && Merged(init) && TokenFits(p, acc[|acc| - 1])
      && (|init| > 0 ==> !init[|init| - 1].1.Literal?)
  {
    var init := acc[..|acc| - 1];
    assert forall k :: 0 <= k < |init| ==> init[k] == acc[k];
    if |init| > 0 {
      assert init[|init| - 1] == acc[|acc| - 2];
    }
  }

  /** A Literal token followed by an ordinary character covers it too when lengthened by one. */
  lemma LiteralGrows(p: string, j: nat, n: nat)
    requires TokenFits(p, (j, Literal(n))) && j + n < |p| && Ordinary(p[j + n])
    ensures TokenFits(p, (j, Literal(n + 1)))
  {
    forall m | j <= m < j + n + 1
      ensures Ordinary(p[m])
    {
      if m < j + n {
        assert TokenFits(p, (j, Literal(n)));
      }
    }
  }

  lemma PunctKeeps(p: string, i: nat, acc: Tokens, t: Token, i': nat)
    requires LexState(p, i, acc) && i < i' <= |p|
    requires !t.Literal? && t != Space && TokenFits(p, (i, t))
    ensures LexState(p, i', acc + [(i, t)])
  {
    FitsAppend(p, acc, (i, t));
    MergedAppend(acc, (i, t));
  }

  /** A turn of the loop keeps the LexState and skips no rejected character. */
  lemma AdvanceKeeps(p: string, i: nat, acc: Tokens)
    requires LexState(p, i, acc) && i < |p| && !Bad(p[i])
    ensures LexState(p, Advance(p, i, acc).0, Advance(p, i, acc).1)
    ensures FirstBad(p, Advance(p, i, acc).0) == FirstBad(p, i)
  {
    var c := p[i];
    if Blank(c) {
      AddSpaceKeeps(p, i, acc);
    } else if c == '{' && i + 1 < |p| && p[i + 1] == '{' {
      PunctKeeps(p, i, acc, LeftBraceBrace, i + 2);
    } else if c == '}' && i + 1 < |p| && p[i + 1] == '}' {
      PunctKeeps(p, i, acc, RightBraceBrace, i + 2);
    } else if c == ':' {
      PunctKeeps(p, i, acc, Colon, i + 1);
    } else if c == '{' {
      PunctKeeps(p, i, acc, LeftBrace, i + 1);
    } else if c == '}' {
      PunctKeeps(p, i, acc, RightBrace, i + 1);
    } else {
      AddLiteralKeeps(p, i, acc);
    }
  }

  /**
   * Lexing from a LexState fails exactly when a rejected character lies
   * ahead, and then at the first one; otherwise its tokens fit `p` and are
   * merged.
   */
  lemma {:induction false} LexFromFacts(p: string, i: nat, acc: Tokens)
    requires LexState(p, i, acc)
    ensures var r := LexFrom(p, i, acc);
      && (r.Err? <==> FirstBad(p, i) < |p|)
      && (r.Err? ==> r.error == CompileError(FirstBad(p, i), NotAscii))
      && (r.Ok? ==> Fits(p, r.value) && Merged(r.value))
    decreases |p| - i
  {
    if i < |p| && !Bad(p[i]) {
      var next := Advance(p, i, acc);
      AdvanceKeeps(p, i, acc);
      LexFromFacts(p, next.0, next.1);
    }
  }

  /** What `tokenize` makes of a whole pattern: an error exactly at a rejected character. */
  function Lex(p: string): (r: Result<Tokens, CompileError>)
    ensures r.Err? ==> r.error.kind == NotAscii && r.error.offset < |p| && Bad(p[r.error.offset])
    ensures r.Ok? ==> forall k :: 0 <= k < |p| ==> !Bad(p[k])
  {
    LexFrom(p, 0, [])
  }

  /**
   * `tokenize` fails exactly when the pattern holds a character that is
   * neither blank nor printable ASCII, at the first such; otherwise every
   * token fits the pattern, and runs of blanks and runs of ordinary
   * characters are merged into one token each.
   */
  lemma LexFacts(p: string)
    ensures var r := Lex(p);
      && (r.Err? <==> exists k :: 0 <= k < |p| && Bad(p[k]))
      && (r.Err? ==>
        && r.error.kind == NotAscii && r.error.offset < |p| && Bad(p[r.error.offset])
        && forall m :: 0 <= m < r.error.offset ==> !Bad(p[m]))
      && (r.Ok? ==> Fits(p, r.value) && Merged(r.value))
  {
    LexFromFacts(p, 0, []);
  }

  /**
   * The token `t` covers exactly the characters from its offset up to `e`:
   * one for `{`, `}` and `:`, two for `{{` and `}}`, its length for a
   * Literal, and a nonempty run of blanks for a Space.
   */
  predicate Spans(p: string, t: (nat, Token), e: nat)
  {
    match t.1
    case Space => t.0 < e <= |p| && forall m :: t.0 <= m < e ==> Blank(p[m])
    case Literal(n) => e == t.0 + n
    case LeftBraceBrace => e == t.0 + 2
    case RightBraceBrace => e == t.0 + 2
    case _ => e == t.0 + 1
  }

  /** The tokens `toks` cover the first `i` characters of `p`, one after another from offset 0. */
  predicate Tiles(p: string, toks: Tokens, i: nat)
  {
    && (|toks| == 0 ==> i == 0)
    && (|toks| > 0 ==>
      && toks[0].0 == 0
      && (forall k :: 0 <= k < |toks| - 1 ==> Spans(p, toks[k], toks[k + 1].0))
      && Spans(p, toks[|toks| - 1], i))
  }

  /** A token starting where the tiling ends extends it. */
  lemma TilesAppend(p: string, acc: Tokens, i: nat, t: (nat, Token), e: nat)
    requires Tiles(p, acc, i) && t.0 == i && Spans(p, t, e)
    ensures Tiles(p, acc + [t], e)
  {
    var r := acc + [t];
    forall k | 0 <= k < |r| - 1
      ensures Spans(p, r[k], r[k + 1].0)
    {
      assert r[k] == acc[k];
      if k < |acc| - 1 {
        assert r[k + 1] == acc[k + 1];
      }
    }
  }

  /** A blank after a trailing Space token lengthens its run. */
  lemma TilesSpace(p: string, acc: Tokens, i: nat)
    requires Tiles(p, acc, i) && i < |p| && Blank(p[i])
    ensures Tiles(p, AddSpace(acc, i), i + 1)
  {
    if !(|acc| > 0 && acc[|acc| - 1].1 == Space) {
      TilesAppend(p, acc, i, (i, Space), i + 1);
    }
  }

  /** A character after a trailing Literal token lengthens it. */
  lemma TilesLiteral(p: string, acc: Tokens, i: nat)
    requires Tiles(p, acc, i)
    ensures Tiles(p, AddLiteral(acc, i), i + 1)
  {
    if |acc| > 0 && acc[|acc| - 1].1.Literal? {
      var init, last := acc[..|acc| - 1], acc[|acc| - 1];
      var r := AddLiteral(acc, i);
      assert r == init + [(last.0, Literal(last.1.len + 1))];
      forall k | 0 <= k < |r| - 1
        ensures Spans(p, r[k], r[k + 1].0)
      {
        assert r[k] == acc[k];
        assert r[k + 1].0 == acc[k + 1].0;
      }
    } else {
      TilesAppend(p, acc, i, (i, Literal(1)), i + 1);
    }
  }

  /** A turn of the loop of `tokenize` extends the tiling to where lexing goes on. */
  lemma AdvanceTiles(p: string, i: nat, acc: Tokens)
    requires Tiles(p, acc, i) && i < |p| && !Bad(p[i])
    ensures Tiles(p, Advance(p, i, acc).1, Advance(p, i, acc).0)
  {
    var c := p[i];
    if Blank(c) {
      TilesSpace(p, acc, i);
    } else if c == '{' && i + 1 < |p| && p[i + 1] == '{' {
      TilesAppend(p, acc, i, (i, LeftBraceBrace), i + 2);
    } else if c == '}' && i + 1 < |p| && p[i + 1] == '}' {
      TilesAppend(p, acc, i, (i, RightBraceBrace), i + 2);
    } else if c == ':' {
      TilesAppend(p, acc, i, (i, Colon), i + 1);
    } else if c == '{' {
      TilesAppend(p, acc, i, (i, LeftBrace), i + 1);
    } else if c == '}' {
      TilesAppend(p, acc, i, (i, RightBrace), i + 1);
    } else {
      TilesLiteral(p, acc, i);
    }
  }

  lemma {:induction false} LexFromTiles(p: string, i: nat, acc: Tokens)
    requires i <= |p| && Tiles(p, acc, i)
    ensures LexFrom(p, i, acc).Ok? ==> Tiles(p, LexFrom(p, i, acc).value, |p|)
    decreases |p| - i
  {
    if i < |p| && !Bad(p[i]) {
      var next := Advance(p, i, acc);
      AdvanceTiles(p, i, acc);
      LexFromTiles(p, next.0, next.1);
    }
  }

  /**
   * The tokens of an accepted pattern cover all of it, in order: the first
   * starts at offset 0, each starts where the one before it ends, and the
   * last ends at the end of the pattern. No character is dropped or read twice.
   */
  lemma LexTiles(p: string)
    ensures Lex(p).Ok? ==> Tiles(p, Lex(p).value, |p|)
  {
    LexFromTiles(p, 0, []);
  }

  /**
   * A single brace is lexed only where the character after it does not
   * pair with it: `{{` and `}}` are taken greedily, from the left.
   */
  predicate GreedyToken(p: string, t: (nat, Token))
  {
    && (t.1 == LeftBrace && t.0 + 1 < |p| ==> p[t.0 + 1] != '{')
    && (t.1 == RightBrace && t.0 + 1 < |p| ==> p[t.0 + 1] != '}')
  }

  predicate Greedy(p: string, toks: Tokens)
  {
    forall k :: 0 <= k < |toks| ==> GreedyToken(p, toks[k])
  }

  lemma GreedyAppend(p: string, acc: Tokens, t: (nat, Token))
    requires Greedy(p, acc) && GreedyToken(p, t)
    ensures Greedy(p, acc + [t])
  {
    var r := acc + [t];
    forall k | 0 <= k < |r|
      ensures GreedyToken(p, r[k])
    {
      if k < |acc| {
        assert r[k] == acc[k];
      }
    }
  }

  /** A turn of the loop of `tokenize` adds a single brace only where no second one follows. */
  lemma AdvanceGreedy(p: string, i: nat, acc: Tokens)
    requires Greedy(p, acc) && i < |p| && !Bad(p[i])
    ensures Greedy(p, Advance(p, i, acc).1)
  {
    var c := p[i];
    if Blank(c) {
      if !(|acc| > 0 && acc[|acc| - 1].1 == Space) {
        GreedyAppend(p, acc, (i, Space));
      }
    } else if c == '{' && i + 1 < |p| && p[i + 1] == '{' {
      GreedyAppend(p, acc, (i, LeftBraceBrace));
    } else if c == '}' && i + 1 < |p| && p[i + 1] == '}' {
      GreedyAppend(p, acc, (i, RightBraceBrace));
    } else if c == ':' {
      GreedyAppend(p, acc, (i, Colon));
    } else if c == '{' {
      GreedyAppend(p, acc, (i, LeftBrace));
    } else if c == '}' {
      GreedyAppend(p, acc, (i, RightBrace));
    } else if |acc| > 0 && acc[|acc| - 1].1.Literal? {
      var init := acc[..|acc| - 1];
      assert forall k :: 0 <= k < |init| ==> init[k] == acc[k];
      GreedyAppend(p, init, (acc[|acc| - 1].0, Literal(acc[|acc| - 1].1.len + 1)));
    } else {
      GreedyAppend(p, acc, (i, Literal(1)));
    }
  }

  lemma {:induction false} LexFromGreedy(p: string, i: nat, acc: Tokens)
    requires i <= |p| && Greedy(p, acc)
    ensures LexFrom(p, i, acc).Ok? ==> Greedy(p, LexFrom(p, i, acc).value)
    decreases |p| - i
  {
    if i < |p| && !Bad(p[i]) {
      var next := Advance(p, i, acc);
      AdvanceGreedy(p, i, acc);
      LexFromGreedy(p, next.0, next.1);
    }
  }

  /**
   * The token list of `p`, described without lexing: every token fits the
   * characters it stands for, no two neighbours are both Space or both
   * Literal, the tokens cover the pattern one after another, and braces
   * pair greedily.
   */
  predicate Canonical(p: string, toks: Tokens)
  {
    Fits(p, toks) && Merged(toks) && Tiles(p, toks, |p|) && Greedy(p, toks)
  }

  /** The tokens of an accepted pattern are Canonical; in particular `{{` and `}}` pair greedily. */
  lemma LexCanonical(p: string)
    ensures Lex(p).Ok? ==> Canonical(p, Lex(p).value)
  {
    LexFacts(p);
    LexTiles(p);
    LexFromGreedy(p, 0, []);
  }

  /** Where the `k`th token ends: where the next one starts, or at the end of the pattern. */
  function TokenEnd(p: string, toks: Tokens, k: nat): nat
    requires k < |toks|
  {
    if k + 1 < |toks| then toks[k + 1].0 else |p|
  }

  /** A run token ends where its run does: the character after a Space is no blank, after a Literal no ordinary one. */
  predicate RunEnds(p: string, t: (nat, Token), e: nat)
  {
    && (t.1 == Space && e < |p| ==> !Blank(p[e]))
    && (t.1.Literal? && e < |p| ==> !Ordinary(p[e]))
  }

  /** What Canonical says of each single token. */
  lemma CanonicalToken(p: string, toks: Tokens, k: nat)
    requires Canonical(p, toks) && k < |toks|
    ensures var t, e := toks[k], TokenEnd(p, toks, k);
      TokenFits(p, t) && GreedyToken(p, t) && Spans(p, t, e) && RunEnds(p, t, e) && t.0 < |p| && e <= |p|
  {
    var t := toks[k];
    assert TokenFits(p, t) && GreedyToken(p, t);
    if k + 1 < |toks| {
      var u := toks[k + 1];
      assert TokenFits(p, u) && Spans(p, t, u.0);
      assert !(t.1 == Space && u.1 == Space) && !(t.1.Literal? && u.1.Literal?);
    }
  }

  /** Two tokens that start at the same character and satisfy Canonical's clauses are the same token, with the same end. */
  lemma SameToken(p: string, a: (nat, Token), ea: nat, b: (nat, Token), eb: nat)
    requires a.0 == b.0 && ea <= |p| && eb <= |p|
    requires TokenFits(p, a) && GreedyToken(p, a) && Spans(p, a, ea) && RunEnds(p, a, ea)
    requires TokenFits(p, b) && GreedyToken(p, b) && Spans(p, b, eb) && RunEnds(p, b, eb)
    ensures a == b && ea == eb
  {
    var i := a.0;
    if a.1 == Space || b.1 == Space {
      assert Blank(p[i]);
    } else if a.1.Literal? || b.1.Literal? {
      assert Ordinary(p[i]);
    }
  }

  lemma {:induction false} SameFrom(p: string, t1: Tokens, t2: Tokens, k: nat)
    requires Canonical(p, t1) && Canonical(p, t2)
    requires k < |t1| && k < |t2| && t1[k].0 == t2[k].0
    ensures |t1| == |t2| && t1[k..] == t2[k..]
    decreases |t1| - k
  {
    CanonicalToken(p, t1, k);
    CanonicalToken(p, t2, k);
    SameToken(p, t1[k], TokenEnd(p, t1, k), t2[k], TokenEnd(p, t2, k));
    if k + 1 < |t1| && k + 1 < |t2| {
      SameFrom(p, t1, t2, k + 1);
      assert t1[k..] == [t1[k]] + t1[k + 1..];
      assert t2[k..] == [t2[k]] + t2[k + 1..];
    } else if k + 1 < |t1| {
      CanonicalToken(p, t1, k + 1);
    } else if k + 1 < |t2| {
      CanonicalToken(p, t2, k + 1);
    }
  }

  /** At most one token list is Canonical for a pattern. */
  lemma CanonicalUnique(p: string, t1: Tokens, t2: Tokens)
    requires Canonical(p, t1) && Canonical(p, t2)
    ensures t1 == t2
  {
    if |t1| > 0 && |t2| > 0 {
      SameFrom(p, t1, t2, 0);
      assert t1 == t1[0..] && t2 == t2[0..];
    } else if |t1| > 0 {
      CanonicalToken(p, t1, 0);
    } else if |t2| > 0 {
      CanonicalToken(p, t2, 0);
    }
  }

  /** Every character from the `k`th token on is one of the characters the tokens stand for, so none is rejected. */
  lemma {:induction false} CoveredFrom(p: string, toks: Tokens, k: nat)
    requires Canonical(p, toks) && k < |toks|
    ensures forall m :: toks[k].0 <= m < |p| ==> !Bad(p[m])
    decreases |toks| - k
  {
    CanonicalToken(p, toks, k);
    var t, e := toks[k], TokenEnd(p, toks, k);
    assert forall m :: t.0 <= m < e ==> !Bad(p[m]) by {
      forall m | t.0 <= m < e
        ensures !Bad(p[m])
      {
        if t.1.Literal? {
          assert Ordinary(p[m]);
        } else if t.1 != Space {
          assert m == t.0 || m == t.0 + 1;
        }
      }
    }
    if k + 1 < |toks| {
      CoveredFrom(p, toks, k + 1);
    }
  }

  /**
   * The tokens `tokenize` produces are exactly the Canonical ones: it
   * succeeds with `t` if and only if `t` is Canonical for the pattern.
   */
  lemma LexExactly(p: string, t: Tokens)
    ensures Lex(p) == Ok(t) <==> Canonical(p, t)
  {
    LexCanonical(p);
    if Canonical(p, t) {
      if |t| > 0 {
        CoveredFrom(p, t, 0);
      }
      LexFacts(p);
      CanonicalUnique(p, t, Lex(p).value);
    }
  }

  /**
   * `push_lit!(s)`: the args end with a Lit whose text ends with `s`; at
   * most one arg is added, and every arg before the last is left alone.
   */
  function PushLit(args: seq<Arg>, s: string): (r: seq<Arg>)
    ensures |args| <= |r| <= |args| + 1 && 0 < |r| && r[|r| - 1].Lit?
    ensures r[..|r| - 1] == args[..|r| - 1]
    ensures var t := r[|r| - 1].text; |s| <= |t| && t[|t| - |s|..] == s
  {
    if |args| > 0 && args[|args| - 1].Lit? then args[..|args| - 1] + [Lit(args[|args| - 1].text + s)]
    else args + [Lit(s)]
  }

  /** The table of placeholder names. */
  function TagArg(tag: string): (r: Option<Arg>)
    ensures r.Some? ==> !r.value.Lit? && r.value != Whitespace
  {
    match tag
    case "i8" => Some(Int(I8))
    case "u8" => Some(Int(U8))
    case "i16" => Some(Int(I16))
    case "u16" => Some(Int(U16))
    case "i32" => Some(Int(I32))
    case "u32" => Some(Int(U32))
    case "i64" => Some(Int(I64))
    case "u64" => Some(Int(U64))
    case "i" => Some(Int(I))
    case "u" => Some(Int(U))
    case "f32" => Some(Float(false))
    case "f64" => Some(Float(true))
    case "s" => Some(Strin)
    case _ => None
  }

  /**
   * The placeholder whose `{` the cursor has just passed (it is at `pos`): the
   * cursor after its `}` and the arg its tag names, or the error `parse`
   * reports for it.
   */
  function Placeholder(p: string, toks: Tokens, pos: nat): (r: Result<(nat, Arg), CompileError>)
    requires pos < |toks| && toks[pos].1 == LeftBrace && Fits(p, toks)
    ensures r.Ok? ==> pos < r.value.0 <= |toks|
    ensures r.Err? ==> r.error.kind != NotAscii
    ensures r.Err? && r.error.kind != UnexpectedEof ==> exists k :: pos <= k < |toks| && toks[k].0 == r.error.offset
  {
    var i := toks[pos].0;
    SkipTargetBounds(toks, pos + 1);
    var q := SkipTarget(toks, pos + 1);
    if q == |toks| then Err(CompileError(i, UnexpectedEof))
    else if !toks[q].1.Literal? then Err(CompileError(toks[q].0, ExpectedType))
    else
      var j, n := toks[q].0, toks[q].1.len;
      assert TokenFits(p, toks[q]);
      var arg := TagArg(p[j..j + n]);
      if arg.None? then Err(CompileError(j, UnknownType))
      else
        SkipTargetBounds(toks, q + 1);
        var r := SkipTarget(toks, q + 1);
        if r == |toks| then Err(CompileError(CLOSE_EOF_OFFSET, UnexpectedEof))
        else if toks[r].1 != RightBrace then Err(CompileError(toks[r].0, UnexpectedToken))
        else
          var next: nat := r + 1;
          Ok((next, arg.value))
  }

  /** The text a token outside a placeholder stands for: the characters of a Literal, `{` for `{{`, `}` for `}}`, `:`. */
  function TokenText(p: string, t: (nat, Token)): string
    requires t.1 != LeftBrace && t.1 != RightBrace && t.1 != Space && TokenFits(p, t)
  {
    match t.1
    case Literal(n) => p[t.0..t.0 + n]
    case LeftBraceBrace => "{"
    case RightBraceBrace => "}"
    case Colon => ":"
  }

  /**
   * The args after a token that is neither `{` nor `}`: a Space adds a
   * Whitespace; any other token adds its text with `push_lit!`.
   */
  function Consume(p: string, t: (nat, Token), args: seq<Arg>): seq<Arg>
    requires t.1 != LeftBrace && t.1 != RightBrace && TokenFits(p, t)
  {
    if t.1 == Space then args + [Whitespace] else PushLit(args, TokenText(p, t))
  }

  /**
   * Parsing the tokens `toks` of pattern `p` from cursor `pos` on, after the
   * args `args`. It never reports a rejected character (the lexer does), and
   * apart from "Unexpected EOF" every error it reports is at the offset of a
   * token at or after the cursor.
   */
  function ParseFrom(p: string, toks: Tokens, pos: nat, args: seq<Arg>): (r: Result<seq<Arg>, CompileError>)
    requires pos <= |toks| && Fits(p, toks)
    ensures r.Err? ==> r.error.kind != NotAscii
    ensures r.Err? && r.error.kind != UnexpectedEof ==> exists k :: pos <= k < |toks| && toks[k].0 == r.error.offset
    decreases |toks| - pos
  {
    if pos == |toks| then Ok(args)
    else if toks[pos].1 == RightBrace then Err(CompileError(toks[pos].0, UnexpectedToken))
    else if toks[pos].1 == LeftBrace then
      match Placeholder(p, toks, pos)
      case Err(e) => Err(e)
      case Ok(next) => ParseFrom(p, toks, next.0, args + [next.1])
    else
      assert TokenFits(p, toks[pos]);
      ParseFrom(p, toks, pos + 1, Consume(p, toks[pos], args))
  }

  /** Parsing past a token that is neither `{` nor `}`. */
  lemma ConsumeStep(p: string, toks: Tokens, pos: nat, args: seq<Arg>)
    requires pos < |toks| && Fits(p, toks) && toks[pos].1 != LeftBrace && toks[pos].1 != RightBrace
    ensures TokenFits(p, toks[pos])
    ensures ParseFrom(p, toks, pos, args) == ParseFrom(p, toks, pos + 1, Consume(p, toks[pos], args))
  {
  }

  /**
   * What `parse` returns for the pattern `p` on a parser that already holds
   * `prior`: a rejected character is reported exactly when lexing fails, and
   * any other error, "Unexpected EOF" aside, is at the offset of a token.
   */
  function Compile(p: string, prior: seq<Arg>): (r: Result<seq<Arg>, CompileError>)
    ensures r.Err? ==> (r.error.kind == NotAscii <==> Lex(p).Err?)
    ensures r.Err? && Lex(p).Ok? && r.error.kind != UnexpectedEof ==>
      exists k :: 0 <= k < |Lex(p).value| && Lex(p).value[k].0 == r.error.offset
  {
    match Lex(p)
    case Err(e) => Err(e)
    case Ok(toks) =>
      LexFacts(p);
      ParseFrom(p, toks, 0, prior)
  }

  /** The blank arm of `tokenize`: a blank run is one Space token, at the offset of its first blank. */
  method PushSpace(tokens: Tokens, i: nat) returns (r: Tokens)
    ensures r == AddSpace(tokens, i)
  {
    var start := i;
    r := tokens;
    if |r| > 0 && r[|r| - 1].1 == Space {
      start := r[|r| - 1].0;
      r := r[..|r| - 1];
    }
    r := r + [(start, Space)];
  }

  /** The last arm of `tokenize`: a run of ordinary characters is one Literal token. */
  method PushLiteral(tokens: Tokens, i: nat) returns (r: Tokens)
    ensures r == AddLiteral(tokens, i)
  {
    var start, len := i, 1;
    r := tokens;
    if |r| > 0 && r[|r| - 1].1.Literal? {
      len := len + r[|r| - 1].1.len;
      start := r[|r| - 1].0;
      r := r[..|r| - 1];
    }
    r := r + [(start, Literal(len))];
  }

  /** `Parser`: the pattern, the token cursor and the args built so far. */
  class Parser {
    const bytes: string
    var stream: Stream
    var args: seq<Arg>

    /** `Parser::new(cx, l, span)`. */
    constructor (l: string)
      ensures bytes == l && args == [] && fresh(stream) && stream.Valid() && stream.tokens == []
    {
      bytes := l;
      stream := new Stream([]);
      args := [];
    }

    /** `tokenize()`: on success the cursor is a fresh stream over Lex(bytes). */
    method Tokenize() returns (r: Result<(), CompileError>)
      modifies this
      ensures args == old(args)
      ensures r.Err? <==> Lex(bytes).Err?
      ensures r.Err? ==> r.error == Lex(bytes).error && stream == old(stream)
      ensures r.Ok? ==> fresh(stream) && stream.Valid() && stream.tokens == Lex(bytes).value && stream.pos == 0
    {
      var tokens: Tokens := [];
      var chars := new PeekN(bytes);
      ghost var goal := LexFrom(bytes, 0, []);
      while true
        invariant fresh(chars) && chars.Valid() && chars.items == bytes
        invariant LexFrom(bytes, chars.counter, tokens) == goal
        modifies chars
        decreases |bytes| - chars.counter
      {
        var next := chars.Next();
        if next.None? {
          break;
        }
        var i, b := next.value.0, next.value.1;
        ghost var before := tokens;
        ghost var step := if Bad(b) then (0, []) else Advance(bytes, i, before);
        if b == ' ' || b == '\t' {
          tokens := PushSpace(tokens, i);
          assert (chars.counter, tokens) == step;
          continue;
        }
        if !(0x20 <= b as int <= 0x7E) {
          return Err(CompileError(i, NotAscii));
        }
        assert LexFrom(bytes, i, before) == LexFrom(bytes, step.0, step.1);
        var isPunct := false;
        var ahead := chars.Peek(0);
        if b == '{' && ahead == Some('{') {
          tokens := tokens + [(i, LeftBraceBrace)];
          isPunct := true;
        } else if b == '}' && ahead == Some('}') {
          tokens := tokens + [(i, RightBraceBrace)];
          isPunct := true;
        }
        if isPunct {
          var _ := chars.Next();
          assert (chars.counter, tokens) == step;
          continue;
        }
        if b == ':' {
          tokens := tokens + [(i, Colon)];
          isPunct := true;
        } else if b == '{' {
          tokens := tokens + [(i, LeftBrace)];
          isPunct := true;
        } else if b == '}' {
          tokens := tokens + [(i, RightBrace)];
          isPunct := true;
        }
        if isPunct {
          assert (chars.counter, tokens) == step;
          continue;
        }
        tokens := PushLiteral(tokens, i);
        assert (chars.counter, tokens) == step;
      }
      stream := new Stream(tokens);
      r := Ok(());
    }

    /** `push_lit!(s)`. */
    method PushLitArg(s: string)
      modifies this`args
      ensures args == PushLit(old(args), s)
    {
      if |args| > 0 && args[|args| - 1].Lit? {
        var v := args[|args| - 1].text;
        args := args[..|args| - 1];
        args := args + [Lit(v + s)];
      } else {
        args := args + [Lit(s)];
      }
    }

    /** The arms of `parse()` for a token that is neither `{` nor `}`. */
    method ConsumeArg(t: (nat, Token))
      requires t.1 != LeftBrace && t.1 != RightBrace && TokenFits(bytes, t)
      modifies this`args
      ensures args == Consume(bytes, t, old(args))
    {
      var i, tok := t.0, t.1;
      if tok == Space {
        args := args + [Whitespace];
        return;
      }
      var text: string;
      match tok {
        case Literal(len) => text := bytes[i..i + len];
        case LeftBraceBrace => text := "{";
        case RightBraceBrace => text := "}";
        case Colon => text := ":";
      }
      assert text == TokenText(bytes, t);
      PushLitArg(text);
    }

    /**
     * The placeholder branch of `parse()`, entered with the cursor just past
     * the `{` at offset `i`: reads the tag and the closing `}`, and answers
     * the arg the tag names.
     */
    method ParsePlaceholder(i: nat, ghost pos: nat) returns (r: Result<Arg, CompileError>)
      requires stream.Valid() && Fits(bytes, stream.tokens)
      requires pos < |stream.tokens| && stream.tokens[pos] == (i, LeftBrace) && stream.pos == pos + 1
      modifies stream
      ensures stream.Valid()
      ensures var expected := Placeholder(bytes, stream.tokens, pos);
        && (r.Ok? <==> expected.Ok?)
        && (r.Ok? ==> expected.value == (stream.pos, r.value))
        && (r.Err? ==> expected.error == r.error)
    {
      ghost var toks := stream.tokens;
      stream.SkipSpaces();
      ghost var q := stream.pos;
      SkipTargetBounds(toks, pos + 1);
      var tag := stream.Next();
      if tag.None? {
        return Err(CompileError(i, UnexpectedEof));
      }
      var j, t := tag.value.0, tag.value.1;
      if !t.Literal? {
        assert Placeholder(bytes, toks, pos) == Err(CompileError(j, ExpectedType));
        return Err(CompileError(j, ExpectedType));
      }
      assert TokenFits(bytes, toks[q]);
      var arg := TagArg(bytes[j..j + t.len]);
      if arg.None? {
        assert Placeholder(bytes, toks, pos) == Err(CompileError(j, UnknownType));
        return Err(CompileError(j, UnknownType));
      }
      stream.SkipSpaces();
      ghost var e := stream.pos;
      SkipTargetBounds(toks, q + 1);
      var close := stream.Next();
      if close.None? {
        return Err(CompileError(CLOSE_EOF_OFFSET, UnexpectedEof));
      }
      if close.value.1 != RightBrace {
        assert Placeholder(bytes, toks, pos) == Err(CompileError(close.value.0, UnexpectedToken));
        return Err(CompileError(close.value.0, UnexpectedToken));
      }
      assert Placeholder(bytes, toks, pos) == Ok((e + 1, arg.value));
      r := Ok(arg.value);
    }

    /** `parse()`: the args of the pattern, or the first error met. */
    method Parse() returns (r: Result<seq<Arg>, CompileError>)
      modifies this, stream
      ensures r == Compile(bytes, old(args))
    {
      var t := Tokenize();
      if t.Err? {
        return Err(t.error);
      }
      ghost var toks, cursor := stream.tokens, stream;
      LexFacts(bytes);
      ghost var goal := ParseFrom(bytes, toks, 0, args);
      assert goal == Compile(bytes, old(args));
      while true
        invariant stream == cursor && fresh(stream)
        invariant stream.Valid() && stream.tokens == toks && Fits(bytes, toks)
        invariant ParseFrom(bytes, toks, stream.pos, args) == goal
        decreases |toks| - stream.pos
      {
        var next := stream.Next();
        if next.None? {
          break;
        }
        var i, tok := next.value.0, next.value.1;
        ghost var pos, before := stream.pos - 1, args;
        if tok == RightBrace {
          return Err(CompileError(i, UnexpectedToken));
        } else if tok == LeftBrace {
          var arg := ParsePlaceholder(i, pos);
          if arg.Err? {
            return Err(arg.error);
          }
          args := args + [arg.value];
          assert ParseFrom(bytes, toks, pos, before) == ParseFrom(bytes, toks, stream.pos, args);
        } else {
          ConsumeStep(bytes, toks, pos, before);
          ConsumeArg(next.value);
        }
      }
      r := Ok(args);
    }
  }
}
