/** The action mini-language (`FromString` and `checkActions` in
    `actions/util.go`; `ActionsFromString` and `checkActions` in `cmdparse.go`
    are the same code). A comma-separated list of tokens `-N` (delete page N),
    `XaY` (insert X pages after page Y) and `XbY` (insert X pages before page Y). */
module Parser {
  import opened Wrappers
  import opened GoStrings
  import opened Actions

  /** One token. A token that starts with `-` is a delete whatever follows;
      otherwise an `a` anywhere makes it an insert-after, tested before `b`;
      a token with none of these is dropped (`None`). A bad number panics. */
  function ParseToken(tok: string): Result<Option<Action>>
  {
    if |tok| > 0 && tok[0] == '-' then
      match Atoi(tok[1..])
      case None => Panic(BadInteger)
      case Some(n) => Ok(Some(Delete(1, n)))
    else if 'a' in tok then ParseInsert(tok, 'a', true)
    else if 'b' in tok then ParseInsert(tok, 'b', false)
    else Ok(None)
  }

  /** `strings.Split(tok, sep)`, then the first two pieces are the count and the
      page; any further pieces are ignored. */
  function ParseInsert(tok: string, sep: char, after: bool): Result<Option<Action>>
    requires sep in tok
  {
    var args := Split(tok, sep);
    match Atoi(args[0])
    case None => Panic(BadInteger)
    case Some(count) =>
      match Atoi(args[1])
      case None => Panic(BadInteger)
      case Some(pageNo) => Ok(Some(Insert(count, pageNo, after)))
  }

  /** The tokens in order, dropped ones left out; the first bad token panics. */
  function ParseTokens(toks: seq<string>): Result<seq<Action>>
  {
    if |toks| == 0 then Ok([])
    else
      match ParseTokens(toks[..|toks| - 1])
      case Panic(c) => Panic(c)
      case Ok(acts) =>
        match ParseToken(toks[|toks| - 1])
        case Panic(c) => Panic(c)
        case Ok(None) => Ok(acts)
        case Ok(Some(a)) => Ok(acts + [a])
  }

  /** One more token: what `ParseToken` makes of it decides the next prefix,
      and a panic there is the panic of the whole list. */
  lemma NextToken(toks: seq<string>, i: int, acts: seq<Action>)
    requires 0 <= i < |toks| && ParseTokens(toks[..i]) == Ok(acts)
    ensures ParseToken(toks[i]).Panic? ==> ParseTokens(toks) == Panic(ParseToken(toks[i]).cause)
    ensures ParseToken(toks[i]) == Ok(None) ==> ParseTokens(toks[..i + 1]) == Ok(acts)
    ensures ParseToken(toks[i]).Ok? && ParseToken(toks[i]).value.Some? ==>
      ParseTokens(toks[..i + 1]) == Ok(acts + [ParseToken(toks[i]).value.value])
  {
    assert toks[..i + 1][..i] == toks[..i];
    assert toks[..i + 1][i] == toks[i];
    if ParseToken(toks[i]).Panic? {
      PrefixPanic(toks, i + 1);
    }
  }

  /** Once a prefix of the tokens panics, so does the whole list, for the same cause. */
  lemma {:induction false} PrefixPanic(toks: seq<string>, i: int)
    requires 0 <= i <= |toks| && ParseTokens(toks[..i]).Panic?
    ensures ParseTokens(toks) == ParseTokens(toks[..i])
    decreases |toks| - i
  {
    if i < |toks| {
      assert toks[..i + 1][..i] == toks[..i];
      PrefixPanic(toks, i + 1);
    } else {
      assert toks[..i] == toks;
    }
  }

  /** What `FromString(s)` returns, or how it panics. */
  function ParseActions(s: string): Result<seq<Action>>
  {
    match ParseTokens(Split(s, ','))
    case Panic(c) => Panic(c)
    case Ok(acts) => if DistinctAnchors(acts) then Ok(acts) else Panic(DuplicateAnchor)
  }

  /** `checkActions`: walks the list with a set of the anchors seen so far and
      fails at the first anchor seen before. */
  method CheckActions(acts: seq<Action>) returns (ok: bool)
    ensures ok <==> DistinctAnchors(acts)
  {
    var seen: set<int> := {};
    var i := 0;
    while i < |acts|
      invariant 0 <= i <= |acts|
      invariant seen == set j | 0 <= j < i :: acts[j].Page()
      invariant DistinctAnchors(acts[..i])
    {
      if acts[i].Page() in seen {
        var j :| 0 <= j < i && acts[j].Page() == acts[i].Page();
        assert !DistinctAnchors(acts) by {
          assert acts[j].Page() == acts[i].Page();
        }
        return false;
      }
      seen := seen + {acts[i].Page()};
      i := i + 1;
      assert forall j, k :: 0 <= j < k < i ==> acts[..i][j] == acts[j] && acts[..i][k] == acts[k];
    }
    assert acts[..i] == acts;
    return true;
  }

  /** `FromString`: splits on commas, appends each parsed token, then checks
      the anchors. */
  method FromString(s: string) returns (r: Result<seq<Action>>)
    ensures r == ParseActions(s)
  {
    var acts: seq<Action> := [];
    var toks := Split(s, ',');
    var i := 0;
    while i < |toks|
      invariant 0 <= i <= |toks|
      invariant ParseTokens(toks[..i]) == Ok(acts)
    {
      var tok := toks[i];
      NextToken(toks, i, acts);
      if |tok| > 0 && tok[0] == '-' {
        var pageNo := Atoi(tok[1..]);
        if pageNo.None? { return Panic(BadInteger); }
        acts := acts + [Delete(1, pageNo.value)];
      } else if 'a' in tok {
        var args := Split(tok, 'a');
        var count := Atoi(args[0]);
        if count.None? { return Panic(BadInteger); }
        var pageNo := Atoi(args[1]);
        if pageNo.None? { return Panic(BadInteger); }
        acts := acts + [Insert(count.value, pageNo.value, true)];
      } else if 'b' in tok {
        var args := Split(tok, 'b');
        var count := Atoi(args[0]);
        if count.None? { return Panic(BadInteger); }
        var pageNo := Atoi(args[1]);
        if pageNo.None? { return Panic(BadInteger); }
        acts := acts + [Insert(count.value, pageNo.value, false)];
      }
      i := i + 1;
    }
    assert toks[..i] == toks;
    var ok := CheckActions(acts);
    if !ok { return Panic(DuplicateAnchor); }
    return Ok(acts);
  }

  // ---------------------------------------------------------------- properties

  /** Only single-page deletes and inserts of a non-negative count come out of
      the parser, always with distinct anchors. */
  predicate ParserShaped(acts: seq<Action>)
  {
    && DistinctAnchors(acts)
    && (forall a :: a in acts ==> (a.Delete? ==> a.count == 1) && (a.Insert? ==> a.count >= 0))
  }

  lemma TokenShape(tok: string)
    requires ParseToken(tok).Ok? && ParseToken(tok).value.Some?
    ensures var a := ParseToken(tok).value.value;
      (a.Delete? ==> a.count == 1) && (a.Insert? ==> a.count >= 0)
  {
    if !(|tok| > 0 && tok[0] == '-') {
      var sep := if 'a' in tok then 'a' else 'b';
      var args := Split(tok, sep);
      if |args[0]| > 0 {
        assert args[0][0] == tok[0];
        AtoiNoMinus(args[0]);
      }
    }
  }

  lemma {:induction false} TokensShape(toks: seq<string>)
    requires ParseTokens(toks).Ok?
    ensures forall a :: a in ParseTokens(toks).value ==> (a.Delete? ==> a.count == 1) && (a.Insert? ==> a.count >= 0)
  {
    if |toks| > 0 {
      TokensShape(toks[..|toks| - 1]);
      var last := toks[|toks| - 1];
      if ParseToken(last).value.Some? {
        TokenShape(last);
      }
    }
  }

  /** Whatever the parser accepts is a list the engines can run and the
      agreement theorem covers: distinct anchors, non-negative counts, and no
      anchor inside a delete's range. */
  lemma ParsedActionsShape(s: string)
    requires ParseActions(s).Ok?
    ensures ParserShaped(ParseActions(s).value)
    ensures NonNegativeCounts(ParseActions(s).value)
    ensures DeletesAvoidAnchors(ParseActions(s).value)
  {
    TokensShape(Split(s, ','));
    SinglePageDeletesAvoidAnchors(ParseActions(s).value);
  }

  /** The empty string is the empty list (its one token is dropped). */
  lemma EmptyStringNoActions()
    ensures ParseActions("") == Ok([])
  {
    assert Split("", ',') == [""];
    assert ParseTokens([""]) == Ok([]) by {
      assert [""][..0] == [];
    }
  }

  /** Parsing distributes over the token list: tokens are kept in order. */
  lemma {:induction false} ParseTokensAppend(t1: seq<string>, t2: seq<string>)
    requires ParseTokens(t1).Ok? && ParseTokens(t2).Ok?
    ensures ParseTokens(t1 + t2) == Ok(ParseTokens(t1).value + ParseTokens(t2).value)
    decreases |t2|
  {
    if |t2| == 0 {
      assert t1 + t2 == t1;
      assert ParseTokens(t1).value + ParseTokens(t2).value == ParseTokens(t1).value;
    } else {
      var init := t2[..|t2| - 1];
      assert (t1 + t2)[..|t1 + t2| - 1] == t1 + init;
      assert (t1 + t2)[|t1 + t2| - 1] == t2[|t2| - 1];
      assert ParseTokens(init).Ok?;
      ParseTokensAppend(t1, init);
      var last := t2[|t2| - 1];
      var v1, vi := ParseTokens(t1).value, ParseTokens(init).value;
      match ParseToken(last)
      case Ok(None) =>
      case Ok(Some(a)) =>
        assert ParseTokens(t2).value == vi + [a];
        assert (v1 + vi) + [a] == v1 + (vi + [a]);
    }
  }

  // ---------------------------------------------------------------- printing actions

  /** The token the user would write for an action the parser can produce. */
  function Render(a: Action): string
  {
    match a
    case Delete(_, p) => "-" + Itoa(p)
    case Insert(c, p, after) => Itoa(c) + (if after then "a" else "b") + Itoa(p)
  }

  function RenderAll(acts: seq<Action>): seq<string>
  {
    if |acts| == 0 then [] else RenderAll(acts[..|acts| - 1]) + [Render(acts[|acts| - 1])]
  }

  predicate Fits(a: Action)
  {
    MinInt <= a.count <= MaxInt && MinInt <= a.pageNo <= MaxInt
  }

  lemma ParseRendered(a: Action)
    requires Fits(a) && (a.Delete? ==> a.count == 1) && (a.Insert? ==> a.count >= 0)
    ensures ParseToken(Render(a)) == Ok(Some(a))
  {
    match a
    case Delete(_, p) => ParseRenderedDelete(p);
    case Insert(c, p, after) => ParseRenderedInsert(c, p, after);
  }

  lemma ParseRenderedDelete(p: int)
    requires MinInt <= p <= MaxInt
    ensures ParseToken("-" + Itoa(p)) == Ok(Some(Delete(1, p)))
  {
    AtoiItoa(p);
    assert ("-" + Itoa(p))[1..] == Itoa(p);
  }

  lemma ParseRenderedInsert(c: int, p: int, after: bool)
    requires 0 <= c <= MaxInt && MinInt <= p <= MaxInt
    ensures ParseToken(Itoa(c) + (if after then "a" else "b") + Itoa(p)) == Ok(Some(Insert(c, p, after)))
  {
    ItoaChars(c);
    ItoaChars(p);
    var sep := if after then 'a' else 'b';
    var tok := Itoa(c) + [sep] + Itoa(p);
    assert Itoa(c) + (if after then "a" else "b") + Itoa(p) == tok;
    assert tok[0] == Itoa(c)[0] && IsDigit(tok[0]);
    assert sep in tok by { assert tok[|Itoa(c)|] == sep; }
    SplitInsertToken(c, p, sep);
    AtoiItoa(c);
    AtoiItoa(p);
    assert ParseInsert(tok, sep, after) == Ok(Some(Insert(c, p, after)));
    if !after {
      assert 'a' !in tok by {
        forall k | 0 <= k < |tok| ensures tok[k] != 'a' {
          if k < |Itoa(c)| { assert tok[k] == Itoa(c)[k]; }
          else if k > |Itoa(c)| { assert tok[k] == Itoa(p)[k - |Itoa(c)| - 1]; }
        }
      }
    }
  }

  /** A rendered insert token splits at its letter into the two numbers. */
  lemma SplitInsertToken(c: int, p: int, sep: char)
    requires 0 <= c && (sep == 'a' || sep == 'b')
    ensures Split(Itoa(c) + [sep] + Itoa(p), sep) == [Itoa(c), Itoa(p)]
  {
    ItoaChars(c);
    ItoaChars(p);
    assert sep !in Itoa(c) && sep !in Itoa(p);
    SplitAfterPiece(Itoa(c), Itoa(p), sep);
    SplitNoSep(Itoa(p), sep);
  }

  lemma {:induction false} ParseRenderedAll(acts: seq<Action>)
    requires forall a :: a in acts ==> Fits(a) && (a.Delete? ==> a.count == 1) && (a.Insert? ==> a.count >= 0)
    ensures ParseTokens(RenderAll(acts)) == Ok(acts)
  {
    if |acts| > 0 {
      var init, last := acts[..|acts| - 1], acts[|acts| - 1];
      assert acts == init + [last];
      assert RenderAll(acts) == RenderAll(init) + [Render(last)];
      assert forall a :: a in init ==> a in acts;
      assert last in acts;
      ParseRenderedAll(init);
      ParseRendered(last);
      ParseTokensSnoc(RenderAll(init), Render(last), init, last, RenderAll(acts), acts);
    }
  }

  /** One more token that parses to an action appends that action. */
  lemma ParseTokensSnoc(toks: seq<string>, t: string, acts: seq<Action>, a: Action, all: seq<string>, res: seq<Action>)
    requires ParseTokens(toks) == Ok(acts) && ParseToken(t) == Ok(Some(a))
    requires all == toks + [t] && res == acts + [a]
    ensures ParseTokens(all) == Ok(res)
  {
    assert all[..|toks|] == toks;
  }

  lemma {:induction false} RenderedNoComma(acts: seq<Action>)
    ensures |RenderAll(acts)| == |acts|
    ensures forall k :: 0 <= k < |acts| ==> ',' !in RenderAll(acts)[k]
  {
    if |acts| > 0 {
      RenderedNoComma(acts[..|acts| - 1]);
      var a := acts[|acts| - 1];
      ItoaChars(a.pageNo);
      ItoaChars(a.count);
    }
  }

  /** Printing a parser-shaped list of actions as comma-separated tokens and
      parsing it again gives the same list back. */
  lemma ParseRenderRoundTrip(acts: seq<Action>)
    requires ParserShaped(acts)
    requires forall a :: a in acts ==> Fits(a)
    ensures ParseActions(Join(RenderAll(acts), ',')) == Ok(acts)
  {
    if |acts| == 0 {
      EmptyStringNoActions();
    } else {
      RenderedNoComma(acts);
      SplitJoin(RenderAll(acts), ',');
      ParseRenderedAll(acts);
    }
  }

  /** A delete and an insert that both name page 2 are rejected. */
  lemma ConflictRejected()
    ensures ParseActions("-2,1a2") == Panic(DuplicateAnchor)
  {
    var acts := [Delete(1, 2), Insert(1, 2, true)];
    assert Itoa(2) == "2" && Itoa(1) == "1" by {
      assert DigitChar(2) == '2' && DigitChar(1) == '1';
    }
    assert Render(acts[0]) == "-2";
    assert Render(acts[1]) == "1a2";
    assert RenderAll(acts) == ["-2", "1a2"] by {
      assert acts[..1] == [Delete(1, 2)];
      assert acts[..1][..0] == [];
      assert RenderAll(acts[..1]) == ["-2"];
    }
    assert Join(["-2", "1a2"], ',') == "-2,1a2";
    RenderedNoComma(acts);
    SplitJoin(RenderAll(acts), ',');
    ParseRenderedAll(acts);
    assert !DistinctAnchors(acts) by { assert acts[0].Page() == acts[1].Page(); }
  }
}
