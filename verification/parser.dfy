/** `FormulaParser` (bdd/formula.py): recursive descent over the token list,
    one function per precedence level, lowest first:
      iff (left-associative chain) < implies (right-associative)
      < or (chain) < and (chain) < not (prefix, stacking) < primary.
    The parser's mutable `pos` is threaded explicitly: every level takes the
    position to start at and returns the formula with the position after it.
    The `while` loops of the chain levels are the tail-recursive `...Chain`
    functions. */
module Parser {
  import opened Results
  import opened Lexer
  import opened Formulas

  /** A formula and the position just after its last token. */
  type Parsed = Result<(Formula, nat)>

  /** `_current_token`: the token at `pos`, or `None` past the end. */
  function Current(toks: seq<string>, pos: nat): (r: Option<string>)
    ensures r.Some? <==> pos < |toks|
    ensures r.Some? ==> r.value == toks[pos]
  {
    if pos < |toks| then Some(toks[pos]) else None
  }

  /** The current token is the one-character symbol `c`. Every token the
      parser tests for is such a symbol, so comparing the token with the
      string `[c]` is comparing its only character with `c`. */
  predicate IsSym(toks: seq<string>, pos: nat, c: char)
  {
    pos < |toks| && |toks[pos]| == 1 && toks[pos][0] == c
  }

  lemma IsSymMeansCurrent(toks: seq<string>, pos: nat, c: char)
    ensures IsSym(toks, pos, c) <==> Current(toks, pos) == Some([c])
  {
    if pos < |toks| && |toks[pos]| == 1 {
      assert toks[pos] == [toks[pos][0]];
    }
  }

  /** `_consume(expected)` for a one-character `expected`: steps past the
      current token when it is that symbol and fails otherwise, naming what
      was found. */
  function Consume(toks: seq<string>, pos: nat, c: char): (r: Result<nat>)
    ensures r.Ok? <==> IsSym(toks, pos, c)
    ensures r.Ok? ==> r.value == pos + 1
    ensures r.Err? ==> r.error == Expected([c], Current(toks, pos))
  {
    if !IsSym(toks, pos, c) then Err(Expected([c], Current(toks, pos))) else Ok(pos + 1)
  }

  /** The variables of a parsed formula are tokens that begin with a letter,
      the test `_parse_primary` applies. */
  predicate NamesFrom(f: Formula, toks: seq<string>)
  {
    match f
    case Variable(n) => n in toks && |n| > 0 && IsAlpha(n[0])
    case Not(g) => NamesFrom(g, toks)
    case And(l, r) => NamesFrom(l, toks) && NamesFrom(r, toks)
    case Or(l, r) => NamesFrom(l, toks) && NamesFrom(r, toks)
    case Implies(l, r) => NamesFrom(l, toks) && NamesFrom(r, toks)
    case Iff(l, r) => NamesFrom(l, toks) && NamesFrom(r, toks)
  }

  /** `_parse_iff`. */
  function ParseIff(toks: seq<string>, pos: nat): (r: Parsed)
    requires pos <= |toks|
    ensures r.Ok? ==> pos < r.value.1 <= |toks| && NamesFrom(r.value.0, toks)
    decreases |toks| - pos, 5
  {
    var lp :- ParseImplies(toks, pos);
    IffChain(toks, lp.1, lp.0)
  }

  /** The `while` loop of `_parse_iff`: each `↔` extends the left operand. */
  function IffChain(toks: seq<string>, pos: nat, left: Formula): (r: Parsed)
    requires pos <= |toks| && NamesFrom(left, toks)
    ensures r.Ok? ==> pos <= r.value.1 <= |toks| && NamesFrom(r.value.0, toks)
    decreases |toks| - pos, 5
  {
    if IsSym(toks, pos, '↔') then
      var rp :- ParseImplies(toks, pos + 1);
      IffChain(toks, rp.1, Iff(left, rp.0))
    else
      Ok((left, pos))
  }

  /** `_parse_implies`: an `→` makes the rest of the level its right operand. */
  function ParseImplies(toks: seq<string>, pos: nat): (r: Parsed)
    requires pos <= |toks|
    ensures r.Ok? ==> pos < r.value.1 <= |toks| && NamesFrom(r.value.0, toks)
    decreases |toks| - pos, 4
  {
    var lp :- ParseOr(toks, pos);
    if IsSym(toks, lp.1, '→') then
      var rp :- ParseImplies(toks, lp.1 + 1);
      Ok((Implies(lp.0, rp.0), rp.1))
    else
      Ok(lp)
  }

  /** `_parse_or`. */
  function ParseOr(toks: seq<string>, pos: nat): (r: Parsed)
    requires pos <= |toks|
    ensures r.Ok? ==> pos < r.value.1 <= |toks| && NamesFrom(r.value.0, toks)
    decreases |toks| - pos, 3
  {
    var lp :- ParseAnd(toks, pos);
    OrChain(toks, lp.1, lp.0)
  }

  /** The `while` loop of `_parse_or`. */
  function OrChain(toks: seq<string>, pos: nat, left: Formula): (r: Parsed)
    requires pos <= |toks| && NamesFrom(left, toks)
    ensures r.Ok? ==> pos <= r.value.1 <= |toks| && NamesFrom(r.value.0, toks)
    decreases |toks| - pos, 3
  {
    if IsSym(toks, pos, '∨') then
      var rp :- ParseAnd(toks, pos + 1);
      OrChain(toks, rp.1, Or(left, rp.0))
    else
      Ok((left, pos))
  }

  /** `_parse_and`. */
  function ParseAnd(toks: seq<string>, pos: nat): (r: Parsed)
    requires pos <= |toks|
    ensures r.Ok? ==> pos < r.value.1 <= |toks| && NamesFrom(r.value.0, toks)
    decreases |toks| - pos, 2
  {
    var lp :- ParseNot(toks, pos);
    AndChain(toks, lp.1, lp.0)
  }

  /** The `while` loop of `_parse_and`. */
  function AndChain(toks: seq<string>, pos: nat, left: Formula): (r: Parsed)
    requires pos <= |toks| && NamesFrom(left, toks)
    ensures r.Ok? ==> pos <= r.value.1 <= |toks| && NamesFrom(r.value.0, toks)
    decreases |toks| - pos, 2
  {
    if IsSym(toks, pos, '∧') then
      var rp :- ParseNot(toks, pos + 1);
      AndChain(toks, rp.1, And(left, rp.0))
    else
      Ok((left, pos))
  }

  /** `_parse_not`: negations stack, each applying to the next not-level
      formula. */
  function ParseNot(toks: seq<string>, pos: nat): (r: Parsed)
    requires pos <= |toks|
    ensures r.Ok? ==> pos < r.value.1 <= |toks| && NamesFrom(r.value.0, toks)
    decreases |toks| - pos, 1
  {
    if IsSym(toks, pos, '¬') then
      var rp :- ParseNot(toks, pos + 1);
      Ok((Not(rp.0), rp.1))
    else
      ParsePrimary(toks, pos)
  }

  /** `_parse_primary`: a parenthesised formula or a variable; anything else
      (including the end of input) is an error naming the token found. */
  function ParsePrimary(toks: seq<string>, pos: nat): (r: Parsed)
    requires pos <= |toks|
    ensures r.Ok? ==> pos < r.value.1 <= |toks| && NamesFrom(r.value.0, toks)
    ensures r.Err? && !IsSym(toks, pos, '(') ==> r.error == UnexpectedInPrimary(Current(toks, pos))
    decreases |toks| - pos, 0
  {
    var t := Current(toks, pos);
    if IsSym(toks, pos, '(') then
      var fp :- ParseIff(toks, pos + 1);
      var q :- Consume(toks, fp.1, ')');
      Ok((fp.0, q))
    else if t.Some? && |t.value| > 0 && IsAlpha(t.value[0]) then
      Ok((Variable(t.value), pos + 1))
    else
      Err(UnexpectedInPrimary(t))
  }

  /** `parse`: a whole formula, then nothing more. */
  function ParseTokens(toks: seq<string>): (r: Result<Formula>)
    ensures r.Ok? ==> |toks| > 0 && NamesFrom(r.value, toks)
    ensures |toks| == 0 ==> r == Err(UnexpectedInPrimary(None))
  {
    assert |toks| == 0 ==> ParseIff(toks, 0) == Err(UnexpectedInPrimary(None)) by {
      if |toks| == 0 { NotErrorPropagates(toks, 0); }
    }
    var fp :- ParseIff(toks, 0);
    if fp.1 < |toks| then Err(UnexpectedToken(toks[fp.1])) else Ok(fp.0)
  }

  /** Every variable is a name the tokenizer reads back as one token. */
  ghost predicate WellNamed(f: Formula)
  {
    forall v :: v in Vars(f) ==> IsName(v)
  }

  /** `FormulaParser(s).parse()` / `parse_formula(s)`: tokenizing happens in
      the constructor, so its errors come first. */
  function Parse(s: string): (r: Result<Formula>)
    ensures r.Ok? ==> WellNamed(r.value)
  {
    var toks :- Tokenize(s);
    var f :- ParseTokens(toks);
    NamesFromTokens(f, toks);
    Ok(f)
  }

  /** Variables read from the tokenizer's output are names. */
  lemma {:induction false} NamesFromTokens(f: Formula, toks: seq<string>)
    requires NamesFrom(f, toks)
    requires forall k :: 0 <= k < |toks| ==> IsToken(toks[k])
    ensures WellNamed(f)
  {
    match f
    case Variable(n) =>
    case Not(g) => NamesFromTokens(g, toks);
    case And(l, r) => NamesFromTokens(l, toks); NamesFromTokens(r, toks);
    case Or(l, r) => NamesFromTokens(l, toks); NamesFromTokens(r, toks);
    case Implies(l, r) => NamesFromTokens(l, toks); NamesFromTokens(r, toks);
    case Iff(l, r) => NamesFromTokens(l, toks); NamesFromTokens(r, toks);
  }

  // ---------------------------------------------------------------------
  // Printing: `__repr__` and the token list it tokenizes to.

  /** The symbol of a binary connective. */
  function OpSymbol(f: Formula): char
    requires !f.Variable? && !f.Not?
  {
    match f
    case And(_, _) => '∧'
    case Or(_, _) => '∨'
    case Implies(_, _) => '→'
    case Iff(_, _) => '↔'
  }

  /** `(a op b)` as tokens. */
  function Bracketed(a: seq<string>, op: char, b: seq<string>): seq<string>
  {
    ["("] + a + [[op]] + b + [")"]
  }

  /** The tokens of `repr(f)`: binary formulas are fully parenthesised,
      negation is a prefix. */
  function ToTokens(f: Formula): (r: seq<string>)
    ensures |r| > 0
  {
    match f
    case Variable(n) => [n]
    case Not(g) => ["¬"] + ToTokens(g)
    case And(l, r) => Bracketed(ToTokens(l), '∧', ToTokens(r))
    case Or(l, r) => Bracketed(ToTokens(l), '∨', ToTokens(r))
    case Implies(l, r) => Bracketed(ToTokens(l), '→', ToTokens(r))
    case Iff(l, r) => Bracketed(ToTokens(l), '↔', ToTokens(r))
  }

  /** `(a op b)` as text, the f-string of the binary `__repr__` methods. */
  function ShowBracketed(a: string, op: char, b: string): string
  {
    "(" + a + " " + [op] + " " + b + ")"
  }

  /** `__repr__`: `name`, `¬g`, `(l ∧ r)`, `(l ∨ r)`, `(l → r)`, `(l ↔ r)`. */
  function Show(f: Formula): string
  {
    match f
    case Variable(n) => n
    case Not(g) => "¬" + Show(g)
    case And(l, r) => ShowBracketed(Show(l), '∧', Show(r))
    case Or(l, r) => ShowBracketed(Show(l), '∨', Show(r))
    case Implies(l, r) => ShowBracketed(Show(l), '→', Show(r))
    case Iff(l, r) => ShowBracketed(Show(l), '↔', Show(r))
  }

  // ---------------------------------------------------------------------
  // Parsing printed formulas.

  /** The tokens `t` occur in `toks` starting at `pos`. */
  ghost predicate At(toks: seq<string>, pos: nat, t: seq<string>)
  {
    pos + |t| <= |toks| && forall k :: 0 <= k < |t| ==> toks[pos + k] == t[k]
  }

  /** The symbol of a binary connective. */
  predicate IsBinarySymbol(c: char)
  {
    c == '∧' || c == '∨' || c == '→' || c == '↔'
  }

  /** The formula a binary connective token builds. */
  function Combine(op: char, l: Formula, r: Formula): (f: Formula)
    requires IsBinarySymbol(op)
    ensures !f.Variable? && !f.Not? && f.left == l && f.right == r && OpSymbol(f) == op
  {
    if op == '∧' then And(l, r)
    else if op == '∨' then Or(l, r)
    else if op == '→' then Implies(l, r)
    else Iff(l, r)
  }

  /** No binary connective at `pos`: every chain level stops there. */
  predicate Stops(toks: seq<string>, pos: nat)
  {
    !IsSym(toks, pos, '∧') && !IsSym(toks, pos, '∨') && !IsSym(toks, pos, '→') && !IsSym(toks, pos, '↔')
  }

  /** A failure at the not level is the failure of every level above it. */
  lemma NotErrorPropagates(toks: seq<string>, p0: nat)
    requires p0 <= |toks| && ParseNot(toks, p0).Err?
    ensures ParseAnd(toks, p0) == ParseNot(toks, p0)
    ensures ParseOr(toks, p0) == ParseNot(toks, p0)
    ensures ParseImplies(toks, p0) == ParseNot(toks, p0)
    ensures ParseIff(toks, p0) == ParseNot(toks, p0)
  {
  }

  // Each level in terms of the one below it.

  lemma AndLevel(toks: seq<string>, p0: nat, l: Formula, p1: nat)
    requires p0 <= |toks| && ParseNot(toks, p0) == Ok((l, p1))
    ensures NamesFrom(l, toks) && ParseAnd(toks, p0) == AndChain(toks, p1, l)
  {
  }

  lemma OrLevel(toks: seq<string>, p0: nat, l: Formula, p1: nat)
    requires p0 <= |toks| && ParseAnd(toks, p0) == Ok((l, p1))
    ensures NamesFrom(l, toks) && ParseOr(toks, p0) == OrChain(toks, p1, l)
  {
  }

  lemma IffLevel(toks: seq<string>, p0: nat, l: Formula, p1: nat)
    requires p0 <= |toks| && ParseImplies(toks, p0) == Ok((l, p1))
    ensures NamesFrom(l, toks) && ParseIff(toks, p0) == IffChain(toks, p1, l)
  {
  }

  /** A chain whose next token is not its connective ends there. */
  lemma ChainsStop(toks: seq<string>, p: nat, l: Formula)
    requires p <= |toks| && NamesFrom(l, toks)
    ensures !IsSym(toks, p, '∧') ==> AndChain(toks, p, l) == Ok((l, p))
    ensures !IsSym(toks, p, '∨') ==> OrChain(toks, p, l) == Ok((l, p))
    ensures !IsSym(toks, p, '↔') ==> IffChain(toks, p, l) == Ok((l, p))
  {
  }

  /** A not-level formula followed by no connective of a level is the
      whole formula at that level. */
  lemma Lift(toks: seq<string>, p0: nat, f: Formula, p: nat)
    requires p0 <= |toks| && ParseNot(toks, p0) == Ok((f, p))
    requires !IsSym(toks, p, '∧') && !IsSym(toks, p, '∨') && !IsSym(toks, p, '→')
    ensures ParseAnd(toks, p0) == Ok((f, p))
    ensures ParseOr(toks, p0) == Ok((f, p))
    ensures ParseImplies(toks, p0) == Ok((f, p))
    ensures !IsSym(toks, p, '↔') ==> ParseIff(toks, p0) == Ok((f, p))
  {
    AndLevel(toks, p0, f, p);
    ChainsStop(toks, p, f);
    OrLevel(toks, p0, f, p);
    assert ParseImplies(toks, p0) == Ok((f, p));
    IffLevel(toks, p0, f, p);
  }

  /** `l op r` followed by no connective, for each connective, is read as
      that connective applied to `l` and `r`. */
  lemma Between(toks: seq<string>, p0: nat, l: Formula, p1: nat, op: char, r: Formula, p2: nat)
    requires p0 <= |toks| && IsSym(toks, p1, op) && IsBinarySymbol(op)
    requires ParseNot(toks, p0) == Ok((l, p1))
    requires ParseNot(toks, p1 + 1) == Ok((r, p2)) && Stops(toks, p2)
    ensures ParseIff(toks, p0) == Ok((Combine(op, l, r), p2))
  {
    Lift(toks, p1 + 1, r, p2);
    AndLevel(toks, p0, l, p1);
    if op == '∧' {
      ChainsStop(toks, p2, And(l, r));
      assert AndChain(toks, p1, l) == AndChain(toks, p2, And(l, r));
      OrLevel(toks, p0, And(l, r), p2);
      assert ParseImplies(toks, p0) == Ok((And(l, r), p2));
      IffLevel(toks, p0, And(l, r), p2);
    } else {
      ChainsStop(toks, p1, l);
      OrLevel(toks, p0, l, p1);
      if op == '∨' {
        ChainsStop(toks, p2, Or(l, r));
        assert OrChain(toks, p1, l) == OrChain(toks, p2, Or(l, r));
        assert ParseImplies(toks, p0) == Ok((Or(l, r), p2));
        IffLevel(toks, p0, Or(l, r), p2);
      } else {
        if op == '→' {
          assert ParseImplies(toks, p0) == Ok((Implies(l, r), p2));
          ChainsStop(toks, p2, Implies(l, r));
          IffLevel(toks, p0, Implies(l, r), p2);
        } else {
          assert ParseImplies(toks, p0) == Ok((l, p1));
          IffLevel(toks, p0, l, p1);
          ChainsStop(toks, p2, Iff(l, r));
          assert IffChain(toks, p1, l) == IffChain(toks, p2, Iff(l, r));
        }
      }
    }
  }

  lemma AtParts(toks: seq<string>, pos: nat, a: seq<string>, b: seq<string>)
    requires At(toks, pos, a + b)
    ensures At(toks, pos, a) && At(toks, pos + |a|, b)
  {
    forall k | 0 <= k < |a| ensures toks[pos + k] == a[k] {
      assert (a + b)[k] == a[k];
    }
    forall k | 0 <= k < |b| ensures toks[pos + |a| + k] == b[k] {
      assert (a + b)[|a| + k] == b[k];
    }
  }

  lemma AtOne(toks: seq<string>, pos: nat, t: string)
    requires At(toks, pos, [t])
    ensures pos < |toks| && toks[pos] == t
  {
    assert toks[pos + 0] == [t][0];
  }

  /** The printed tokens of a well-named formula, wherever they occur, are
      read back by the not level as that formula, consuming exactly them. */
  lemma {:induction false} ParsePrinted(f: Formula, toks: seq<string>, pos: nat)
    requires WellNamed(f) && At(toks, pos, ToTokens(f))
    ensures ParseNot(toks, pos) == Ok((f, pos + |ToTokens(f)|))
    decreases FormulaSize(f), 1
  {
    if f.Variable? {
      assert f.name in Vars(f);
      ParsePrintedName(f.name, toks, pos);
    } else if f.Not? {
      var g := f.operand;
      assert ToTokens(f) == ["¬"] + ToTokens(g);
      AtParts(toks, pos, ["¬"], ToTokens(g));
      AtOne(toks, pos, "¬");
      ParsePrinted(g, toks, pos + 1);
      Negated(toks, pos, g, pos + 1 + |ToTokens(g)|);
    } else {
      BinaryParts(f);
      ParsePrintedBinary(f.left, OpSymbol(f), f.right, toks, pos);
    }
  }

  /** A binary formula is its connective applied to its operands, printed
      between parentheses. */
  lemma BinaryParts(f: Formula)
    requires !f.Variable? && !f.Not?
    ensures IsBinarySymbol(OpSymbol(f)) && f == Combine(OpSymbol(f), f.left, f.right)
    ensures ToTokens(f) == Bracketed(ToTokens(f.left), OpSymbol(f), ToTokens(f.right))
    ensures FormulaSize(f) == FormulaSize(f.left) + FormulaSize(f.right) + 1
    ensures Vars(f) == Vars(f.left) + Vars(f.right)
  {
  }

  lemma ParsePrintedName(n: string, toks: seq<string>, pos: nat)
    requires IsName(n) && At(toks, pos, [n])
    ensures ParseNot(toks, pos) == Ok((Variable(n), pos + 1))
  {
    AtOne(toks, pos, n);
    assert ParsePrimary(toks, pos) == Ok((Variable(n), pos + 1));
  }

  lemma Negated(toks: seq<string>, pos: nat, g: Formula, p: nat)
    requires IsSym(toks, pos, '¬') && ParseNot(toks, pos + 1) == Ok((g, p))
    ensures ParseNot(toks, pos) == Ok((Not(g), p))
  {
  }

  /** Where the parts of `(a op b)` lie. */
  lemma AtBracketed(toks: seq<string>, pos: nat, a: seq<string>, op: char, b: seq<string>)
    requires At(toks, pos, Bracketed(a, op, b))
    ensures var p1 := pos + 1 + |a|;
      var p2 := p1 + 1 + |b|;
      p2 < |toks| && IsSym(toks, pos, '(') && At(toks, pos + 1, a)
      && IsSym(toks, p1, op) && At(toks, p1 + 1, b) && IsSym(toks, p2, ')')
  {
    assert Bracketed(a, op, b) == ["("] + (a + ([[op]] + (b + [")"])));
    AtParts(toks, pos, ["("], a + ([[op]] + (b + [")"])));
    AtParts(toks, pos + 1, a, [[op]] + (b + [")"]));
    AtParts(toks, pos + 1 + |a|, [[op]], b + [")"]);
    AtParts(toks, pos + 2 + |a|, b, [")"]);
    AtOne(toks, pos, "(");
    AtOne(toks, pos + 1 + |a|, [op]);
    AtOne(toks, pos + 2 + |a| + |b|, ")");
  }

  /** A parenthesised formula is a not-level formula. */
  lemma Parenthesised(toks: seq<string>, pos: nat, f: Formula, p: nat)
    requires IsSym(toks, pos, '(')
    requires ParseIff(toks, pos + 1) == Ok((f, p)) && IsSym(toks, p, ')')
    ensures ParseNot(toks, pos) == Ok((f, p + 1))
  {
    assert ParsePrimary(toks, pos) == Ok((f, p + 1));
  }

  lemma {:induction false} ParsePrintedBinary(l: Formula, op: char, r: Formula, toks: seq<string>, pos: nat)
    requires IsBinarySymbol(op) && WellNamed(l) && WellNamed(r)
    requires At(toks, pos, Bracketed(ToTokens(l), op, ToTokens(r)))
    ensures ParseNot(toks, pos) == Ok((Combine(op, l, r), pos + |Bracketed(ToTokens(l), op, ToTokens(r))|))
    decreases FormulaSize(l) + FormulaSize(r) + 1, 0
  {
    var tl, tr := ToTokens(l), ToTokens(r);
    AtBracketed(toks, pos, tl, op, tr);
    var p1 := pos + 1 + |tl|;
    var p2 := p1 + 1 + |tr|;
    ParsePrintedTo(l, toks, pos + 1, p1);
    ParsePrintedTo(r, toks, p1 + 1, p2);
    assert ParseIff(toks, pos + 1) == Ok((Combine(op, l, r), p2)) by {
      Between(toks, pos + 1, l, p1, op, r, p2);
    }
    Parenthesised(toks, pos, Combine(op, l, r), p2);
    assert p2 + 1 == pos + |Bracketed(tl, op, tr)|;
  }

  /** Printing then parsing the tokens gives the formula back. */
  lemma PrintedTokensRoundTrip(f: Formula)
    requires WellNamed(f)
    ensures ParseTokens(ToTokens(f)) == Ok(f)
  {
    var t := ToTokens(f);
    assert At(t, 0, t) by {
      forall k | 0 <= k < |t| ensures t[0 + k] == t[k] {}
    }
    ParsePrinted(f, t, 0);
    Complete(t, f);
  }

  /** A not-level formula that reaches the end is the whole parse. */
  lemma Complete(toks: seq<string>, f: Formula)
    requires ParseNot(toks, 0) == Ok((f, |toks|))
    ensures ParseTokens(toks) == Ok(f)
  {
    Lift(toks, 0, f, |toks|);
  }

  /** Printing then parsing the text gives the formula back: `repr` output
      is accepted by the parser and denotes the same formula. */
  lemma ShowRoundTrip(f: Formula)
    requires WellNamed(f)
    ensures Tokenize(Show(f)) == Ok(ToTokens(f))
    ensures Parse(Show(f)) == Ok(f)
  {
    ShowPlain(f);
    assert Normalize(Show(f)) == Show(f);
    ScanShow(f, "");
    assert Show(f) + "" == Show(f);
    assert Scan("") == Ok([]);
    assert ToTokens(f) + [] == ToTokens(f);
    PrintedTokensRoundTrip(f);
  }

  /** `repr` output contains no ASCII operator spelling. */
  lemma {:induction false} ShowPlain(f: Formula)
    requires WellNamed(f)
    ensures forall k :: 0 <= k < |Show(f)| ==> !IsAsciiOperatorStart(Show(f)[k])
    decreases FormulaSize(f), 1
  {
    if f.Variable? {
      assert f.name in Vars(f);
    } else if f.Not? {
      ShowPlain(f.operand);
      assert Show(f) == "¬" + Show(f.operand);
    } else {
      BinaryParts(f);
      ShowBinary(f);
      ShowPlainBinary(f.left, OpSymbol(f), f.right);
    }
  }

  lemma {:induction false} ShowPlainBinary(l: Formula, op: char, r: Formula)
    requires WellNamed(l) && WellNamed(r) && IsBinarySymbol(op)
    ensures var s := ShowBracketed(Show(l), op, Show(r));
      forall k :: 0 <= k < |s| ==> !IsAsciiOperatorStart(s[k])
    decreases FormulaSize(l) + FormulaSize(r) + 1, 0
  {
    ShowPlain(l);
    ShowPlain(r);
    var s := ShowBracketed(Show(l), op, Show(r));
    forall k | 0 <= k < |s| ensures !IsAsciiOperatorStart(s[k]) {
      assert s[k] in Show(l) || s[k] in Show(r) || s[k] in "( )" || s[k] == op;
    }
  }

  /** A binary formula's text is its operands' text between parentheses. */
  lemma ShowBinary(f: Formula)
    requires !f.Variable? && !f.Not?
    ensures Show(f) == ShowBracketed(Show(f.left), OpSymbol(f), Show(f.right))
  {
  }

  /** The text of a well-named formula scans to its tokens, whatever follows
      it, as long as what follows cannot continue a name. */
  lemma {:induction false} ScanShow(f: Formula, rest: string)
    requires WellNamed(f) && (|rest| == 0 || !IsNameChar(rest[0]))
    ensures Scan(Show(f) + rest) == Prepend(ToTokens(f), Scan(rest))
    decreases FormulaSize(f), 1
  {
    if f.Variable? {
      assert f.name in Vars(f);
      ScanName(f.name, rest);
    } else if f.Not? {
      var g := f.operand;
      assert Show(f) + rest == ['¬'] + (Show(g) + rest);
      ScanSymbol('¬', Show(g) + rest);
      ScanShow(g, rest);
      PrependTwice(["¬"], ToTokens(g), Scan(rest));
    } else {
      BinaryParts(f);
      ShowBinary(f);
      ScanShowBinary(f.left, OpSymbol(f), f.right, rest);
    }
  }

  lemma {:induction false} ScanShowBinary(l: Formula, op: char, r: Formula, rest: string)
    requires WellNamed(l) && WellNamed(r) && IsBinarySymbol(op)
    requires |rest| == 0 || !IsNameChar(rest[0])
    ensures Scan(ShowBracketed(Show(l), op, Show(r)) + rest)
      == Prepend(Bracketed(ToTokens(l), op, ToTokens(r)), Scan(rest))
    decreases FormulaSize(l) + FormulaSize(r) + 1, 0
  {
    var tl, tail := ToTokens(l), [[op]] + (ToTokens(r) + [")"]);
    var y1 := [' '] + ([op] + ([' '] + (Show(r) + ([')'] + rest))));
    var x1 := Show(l) + y1;
    BracketedText(Show(l), op, Show(r), rest);
    ScanOperatorRight(op, r, rest);
    ScanShow(l, y1);
    ScanSymbol('(', x1);
    var s := Scan(rest);
    PrependTwice(tl, tail, s);
    PrependTwice(["("], tl + tail, s);
    assert ["("] + (tl + tail) == Bracketed(tl, op, ToTokens(r));
  }

  lemma BracketedText(a: string, op: char, b: string, rest: string)
    ensures ShowBracketed(a, op, b) + rest
      == ['('] + (a + ([' '] + ([op] + ([' '] + (b + ([')'] + rest))))))
  {
  }

  /** ` op r)` followed by `rest` scans to the connective, `r`'s tokens and
      the closing parenthesis. */
  lemma {:induction false} ScanOperatorRight(op: char, r: Formula, rest: string)
    requires WellNamed(r) && IsBinarySymbol(op)
    requires |rest| == 0 || !IsNameChar(rest[0])
    ensures Scan([' '] + ([op] + ([' '] + (Show(r) + ([')'] + rest)))))
      == Prepend([[op]] + (ToTokens(r) + [")"]), Scan(rest))
    decreases FormulaSize(r) + 1, 1
  {
    var y3 := [' '] + (Show(r) + ([')'] + rest));
    var y2 := [op] + y3;
    ScanClosing(r, rest);
    ScanSpace(' ', Show(r) + ([')'] + rest));
    ScanSymbol(op, y3);
    ScanSpace(' ', y2);
    PrependTwice([[op]], ToTokens(r) + [")"], Scan(rest));
  }

  /** `r)` followed by `rest` scans to `r`'s tokens and the parenthesis. */
  lemma {:induction false} ScanClosing(r: Formula, rest: string)
    requires WellNamed(r)
    requires |rest| == 0 || !IsNameChar(rest[0])
    ensures Scan(Show(r) + ([')'] + rest)) == Prepend(ToTokens(r) + [")"], Scan(rest))
    decreases FormulaSize(r) + 1, 0
  {
    ScanSymbol(')', rest);
    ScanShow(r, [')'] + rest);
    PrependTwice(ToTokens(r), [")"], Scan(rest));
  }

  // ---------------------------------------------------------------------
  // Precedence and associativity, for any well-named operands. The operands
  // are given by their printed tokens, so each is one not-level unit.

  /** Where the five parts of `ta o1 tb o2 tc` lie. */
  lemma FiveParts(toks: seq<string>, ta: seq<string>, o1: char, tb: seq<string>, o2: char, tc: seq<string>)
    requires toks == ta + [[o1]] + tb + [[o2]] + tc
    ensures var p1 := |ta|;
      var p2 := p1 + 1 + |tb|;
      |toks| == p2 + 1 + |tc| && At(toks, 0, ta) && IsSym(toks, p1, o1)
      && At(toks, p1 + 1, tb) && IsSym(toks, p2, o2) && At(toks, p2 + 1, tc)
  {
    var p1 := |ta|;
    var p2 := p1 + 1 + |tb|;
    forall k | 0 <= k < |ta| ensures toks[0 + k] == ta[k] {}
    forall k | 0 <= k < |tb| ensures toks[p1 + 1 + k] == tb[k] {}
    forall k | 0 <= k < |tc| ensures toks[p2 + 1 + k] == tc[k] {}
    assert toks[p1] == [o1] && toks[p2] == [o2];
  }

  /** The not-level units `a`, `b`, `c` lie in `toks` separated by the
      connectives `o1` at `p1` and `o2` at `p2`, and `c` ends the list. */
  predicate ThreeAt(toks: seq<string>, a: Formula, p1: nat, o1: char, b: Formula, p2: nat, o2: char, c: Formula)
  {
    p1 < p2 < |toks|
    && ParseNot(toks, 0) == Ok((a, p1)) && IsSym(toks, p1, o1)
    && ParseNot(toks, p1 + 1) == Ok((b, p2)) && IsSym(toks, p2, o2)
    && ParseNot(toks, p2 + 1) == Ok((c, |toks|))
  }

  /** `toks` is the printed tokens of the well-named `a`, `b`, `c` joined by
      the connectives `o1` and `o2`. */
  ghost predicate PrintedAt(toks: seq<string>, a: Formula, o1: char, b: Formula, o2: char, c: Formula)
  {
    var p1 := |ToTokens(a)|;
    var p2 := p1 + 1 + |ToTokens(b)|;
    WellNamed(a) && WellNamed(b) && WellNamed(c) && |toks| == p2 + 1 + |ToTokens(c)|
    && At(toks, 0, ToTokens(a)) && IsSym(toks, p1, o1)
    && At(toks, p1 + 1, ToTokens(b)) && IsSym(toks, p2, o2) && At(toks, p2 + 1, ToTokens(c))
  }

  /** The printed tokens of three well-named formulas joined by two
      connectives are three not-level units. */
  lemma ThreePrinted(toks: seq<string>, a: Formula, o1: char, b: Formula, o2: char, c: Formula)
    requires PrintedAt(toks, a, o1, b, o2, c)
    ensures ThreeAt(toks, a, |ToTokens(a)|, o1, b, |ToTokens(a)| + 1 + |ToTokens(b)|, o2, c)
  {
    var p1 := |ToTokens(a)|;
    var p2 := p1 + 1 + |ToTokens(b)|;
    PrintedOperands(toks, a, o1, b, o2, c, p1, p2);
    assert ParseNot(toks, 0) == Ok((a, p1)) by {
      ParsePrintedTo(a, toks, 0, p1);
    }
    assert ParseNot(toks, p1 + 1) == Ok((b, p2)) by {
      ParsePrintedTo(b, toks, p1 + 1, p2);
    }
    assert ParseNot(toks, p2 + 1) == Ok((c, |toks|)) by {
      ParsePrintedTo(c, toks, p2 + 1, |toks|);
    }
  }

  /** Where the three operands of `PrintedAt` lie. */
  lemma PrintedOperands(toks: seq<string>, a: Formula, o1: char, b: Formula, o2: char, c: Formula, p1: nat, p2: nat)
    requires PrintedAt(toks, a, o1, b, o2, c)
    requires p1 == |ToTokens(a)| && p2 == p1 + 1 + |ToTokens(b)|
    ensures WellNamed(a) && At(toks, 0, ToTokens(a)) && p1 == 0 + |ToTokens(a)|
    ensures WellNamed(b) && At(toks, p1 + 1, ToTokens(b)) && p2 == p1 + 1 + |ToTokens(b)|
    ensures WellNamed(c) && At(toks, p2 + 1, ToTokens(c)) && |toks| == p2 + 1 + |ToTokens(c)|
    ensures p1 < p2 < |toks| && IsSym(toks, p1, o1) && IsSym(toks, p2, o2)
  {
    assert |toks| == p2 + 1 + |ToTokens(c)|;
    assert IsSym(toks, p1, o1) && IsSym(toks, p2, o2);
    assert At(toks, 0, ToTokens(a));
    assert At(toks, p1 + 1, ToTokens(b));
    assert At(toks, p2 + 1, ToTokens(c));
  }

  /** `ParsePrinted`, with the end position named. */
  lemma ParsePrintedTo(f: Formula, toks: seq<string>, pos: nat, end: nat)
    requires WellNamed(f) && At(toks, pos, ToTokens(f)) && end == pos + |ToTokens(f)|
    ensures ParseNot(toks, pos) == Ok((f, end))
    decreases FormulaSize(f), 2
  {
    ParsePrinted(f, toks, pos);
  }

  /** An or-level formula followed by no connective is the whole formula. */
  lemma LiftOr(toks: seq<string>, p0: nat, f: Formula, p: nat)
    requires p0 <= |toks| && ParseOr(toks, p0) == Ok((f, p)) && Stops(toks, p)
    ensures ParseIff(toks, p0) == Ok((f, p))
  {
    assert ParseImplies(toks, p0) == Ok((f, p));
    IffLevel(toks, p0, f, p);
    ChainsStop(toks, p, f);
  }

  // How each pair of connectives groups three units.

  lemma OrThenAnd(toks: seq<string>, a: Formula, p1: nat, b: Formula, p2: nat, c: Formula)
    requires ThreeAt(toks, a, p1, '∨', b, p2, '∧', c)
    ensures ParseTokens(toks) == Ok(Or(a, And(b, c)))
  {
    var n := |toks|;
    AndLevel(toks, 0, a, p1);
    ChainsStop(toks, p1, a);
    AndLevel(toks, p1 + 1, b, p2);
    ChainsStop(toks, n, And(b, c));
    assert ParseAnd(toks, p1 + 1) == Ok((And(b, c), n));
    OrLevel(toks, 0, a, p1);
    ChainsStop(toks, n, Or(a, And(b, c)));
    LiftOr(toks, 0, Or(a, And(b, c)), n);
  }

  lemma ImpliesThenOr(toks: seq<string>, a: Formula, p1: nat, b: Formula, p2: nat, c: Formula)
    requires ThreeAt(toks, a, p1, '→', b, p2, '∨', c)
    ensures ParseTokens(toks) == Ok(Implies(a, Or(b, c)))
  {
    var n := |toks|;
    Lift(toks, p2 + 1, c, n);
    AndLevel(toks, 0, a, p1);
    ChainsStop(toks, p1, a);
    OrLevel(toks, 0, a, p1);
    AndLevel(toks, p1 + 1, b, p2);
    ChainsStop(toks, p2, b);
    OrLevel(toks, p1 + 1, b, p2);
    ChainsStop(toks, n, Or(b, c));
    assert ParseOr(toks, p1 + 1) == Ok((Or(b, c), n));
    assert ParseImplies(toks, p1 + 1) == Ok((Or(b, c), n));
    assert ParseImplies(toks, 0) == Ok((Implies(a, Or(b, c)), n));
    IffLevel(toks, 0, Implies(a, Or(b, c)), n);
    ChainsStop(toks, n, Implies(a, Or(b, c)));
  }

  lemma IffThenImplies(toks: seq<string>, a: Formula, p1: nat, b: Formula, p2: nat, c: Formula)
    requires ThreeAt(toks, a, p1, '↔', b, p2, '→', c)
    ensures ParseTokens(toks) == Ok(Iff(a, Implies(b, c)))
  {
    var n := |toks|;
    Lift(toks, 0, a, p1);
    Lift(toks, p2 + 1, c, n);
    AndLevel(toks, p1 + 1, b, p2);
    ChainsStop(toks, p2, b);
    OrLevel(toks, p1 + 1, b, p2);
    assert ParseImplies(toks, p1 + 1) == Ok((Implies(b, c), n));
    IffLevel(toks, 0, a, p1);
    ChainsStop(toks, n, Iff(a, Implies(b, c)));
    assert IffChain(toks, p1, a) == IffChain(toks, n, Iff(a, Implies(b, c)));
  }

  lemma ImpliesThenImplies(toks: seq<string>, a: Formula, p1: nat, b: Formula, p2: nat, c: Formula)
    requires ThreeAt(toks, a, p1, '→', b, p2, '→', c)
    ensures ParseTokens(toks) == Ok(Implies(a, Implies(b, c)))
  {
    var n := |toks|;
    Lift(toks, p2 + 1, c, n);
    AndLevel(toks, p1 + 1, b, p2);
    ChainsStop(toks, p2, b);
    OrLevel(toks, p1 + 1, b, p2);
    assert ParseImplies(toks, p1 + 1) == Ok((Implies(b, c), n));
    AndLevel(toks, 0, a, p1);
    ChainsStop(toks, p1, a);
    OrLevel(toks, 0, a, p1);
    assert ParseImplies(toks, 0) == Ok((Implies(a, Implies(b, c)), n));
    IffLevel(toks, 0, Implies(a, Implies(b, c)), n);
    ChainsStop(toks, n, Implies(a, Implies(b, c)));
  }

  lemma AndThenAnd(toks: seq<string>, a: Formula, p1: nat, b: Formula, p2: nat, c: Formula)
    requires ThreeAt(toks, a, p1, '∧', b, p2, '∧', c)
    ensures ParseTokens(toks) == Ok(And(And(a, b), c))
  {
    var n := |toks|;
    AndLevel(toks, 0, a, p1);
    assert AndChain(toks, p1, a) == AndChain(toks, p2, And(a, b));
    assert AndChain(toks, p2, And(a, b)) == AndChain(toks, n, And(And(a, b), c));
    ChainsStop(toks, n, And(And(a, b), c));
    OrLevel(toks, 0, And(And(a, b), c), n);
    LiftOr(toks, 0, And(And(a, b), c), n);
  }

  lemma OrThenOr(toks: seq<string>, a: Formula, p1: nat, b: Formula, p2: nat, c: Formula)
    requires ThreeAt(toks, a, p1, '∨', b, p2, '∨', c)
    ensures ParseTokens(toks) == Ok(Or(Or(a, b), c))
  {
    var n := |toks|;
    AndLevel(toks, p1 + 1, b, p2);
    ChainsStop(toks, p2, b);
    Lift(toks, p2 + 1, c, n);
    AndLevel(toks, 0, a, p1);
    ChainsStop(toks, p1, a);
    OrLevel(toks, 0, a, p1);
    assert OrChain(toks, p1, a) == OrChain(toks, p2, Or(a, b));
    assert OrChain(toks, p2, Or(a, b)) == OrChain(toks, n, Or(Or(a, b), c));
    ChainsStop(toks, n, Or(Or(a, b), c));
    LiftOr(toks, 0, Or(Or(a, b), c), n);
  }

  lemma IffThenIff(toks: seq<string>, a: Formula, p1: nat, b: Formula, p2: nat, c: Formula)
    requires ThreeAt(toks, a, p1, '↔', b, p2, '↔', c)
    ensures ParseTokens(toks) == Ok(Iff(Iff(a, b), c))
  {
    var n := |toks|;
    Lift(toks, 0, a, p1);
    Lift(toks, p1 + 1, b, p2);
    Lift(toks, p2 + 1, c, n);
    IffLevel(toks, 0, a, p1);
    assert IffChain(toks, p1, a) == IffChain(toks, p2, Iff(a, b));
    assert IffChain(toks, p2, Iff(a, b)) == IffChain(toks, n, Iff(Iff(a, b), c));
    ChainsStop(toks, n, Iff(Iff(a, b), c));
  }

  lemma AndThenOr(toks: seq<string>, a: Formula, p1: nat, b: Formula, p2: nat, c: Formula)
    requires ThreeAt(toks, a, p1, '∧', b, p2, '∨', c)
    ensures ParseTokens(toks) == Ok(Or(And(a, b), c))
  {
    var n := |toks|;
    AndLevel(toks, 0, a, p1);
    assert AndChain(toks, p1, a) == AndChain(toks, p2, And(a, b));
    ChainsStop(toks, p2, And(a, b));
    OrLevel(toks, 0, And(a, b), p2);
    Lift(toks, p2 + 1, c, n);
    assert OrChain(toks, p2, And(a, b)) == OrChain(toks, n, Or(And(a, b), c));
    ChainsStop(toks, n, Or(And(a, b), c));
    LiftOr(toks, 0, Or(And(a, b), c), n);
  }

  lemma AndThenImplies(toks: seq<string>, a: Formula, p1: nat, b: Formula, p2: nat, c: Formula)
    requires ThreeAt(toks, a, p1, '∧', b, p2, '→', c)
    ensures ParseTokens(toks) == Ok(Implies(And(a, b), c))
  {
    var n := |toks|;
    AndLevel(toks, 0, a, p1);
    assert AndChain(toks, p1, a) == AndChain(toks, p2, And(a, b));
    ChainsStop(toks, p2, And(a, b));
    OrLevel(toks, 0, And(a, b), p2);
    Lift(toks, p2 + 1, c, n);
    assert ParseImplies(toks, 0) == Ok((Implies(And(a, b), c), n));
    IffLevel(toks, 0, Implies(And(a, b), c), n);
    ChainsStop(toks, n, Implies(And(a, b), c));
  }

  lemma AndThenIff(toks: seq<string>, a: Formula, p1: nat, b: Formula, p2: nat, c: Formula)
    requires ThreeAt(toks, a, p1, '∧', b, p2, '↔', c)
    ensures ParseTokens(toks) == Ok(Iff(And(a, b), c))
  {
    var n := |toks|;
    AndLevel(toks, 0, a, p1);
    assert AndChain(toks, p1, a) == AndChain(toks, p2, And(a, b));
    ChainsStop(toks, p2, And(a, b));
    OrLevel(toks, 0, And(a, b), p2);
    assert ParseImplies(toks, 0) == Ok((And(a, b), p2));
    IffLevel(toks, 0, And(a, b), p2);
    Lift(toks, p2 + 1, c, n);
    assert IffChain(toks, p2, And(a, b)) == IffChain(toks, n, Iff(And(a, b), c));
    ChainsStop(toks, n, Iff(And(a, b), c));
  }

  lemma OrThenImplies(toks: seq<string>, a: Formula, p1: nat, b: Formula, p2: nat, c: Formula)
    requires ThreeAt(toks, a, p1, '∨', b, p2, '→', c)
    ensures ParseTokens(toks) == Ok(Implies(Or(a, b), c))
  {
    var n := |toks|;
    AndLevel(toks, 0, a, p1);
    ChainsStop(toks, p1, a);
    OrLevel(toks, 0, a, p1);
    AndLevel(toks, p1 + 1, b, p2);
    ChainsStop(toks, p2, b);
    assert OrChain(toks, p1, a) == OrChain(toks, p2, Or(a, b));
    ChainsStop(toks, p2, Or(a, b));
    Lift(toks, p2 + 1, c, n);
    assert ParseImplies(toks, 0) == Ok((Implies(Or(a, b), c), n));
    IffLevel(toks, 0, Implies(Or(a, b), c), n);
    ChainsStop(toks, n, Implies(Or(a, b), c));
  }

  lemma OrThenIff(toks: seq<string>, a: Formula, p1: nat, b: Formula, p2: nat, c: Formula)
    requires ThreeAt(toks, a, p1, '∨', b, p2, '↔', c)
    ensures ParseTokens(toks) == Ok(Iff(Or(a, b), c))
  {
    var n := |toks|;
    AndLevel(toks, 0, a, p1);
    ChainsStop(toks, p1, a);
    OrLevel(toks, 0, a, p1);
    AndLevel(toks, p1 + 1, b, p2);
    ChainsStop(toks, p2, b);
    assert OrChain(toks, p1, a) == OrChain(toks, p2, Or(a, b));
    ChainsStop(toks, p2, Or(a, b));
    assert ParseImplies(toks, 0) == Ok((Or(a, b), p2));
    IffLevel(toks, 0, Or(a, b), p2);
    Lift(toks, p2 + 1, c, n);
    assert IffChain(toks, p2, Or(a, b)) == IffChain(toks, n, Iff(Or(a, b), c));
    ChainsStop(toks, n, Iff(Or(a, b), c));
  }

  lemma ImpliesThenIff(toks: seq<string>, a: Formula, p1: nat, b: Formula, p2: nat, c: Formula)
    requires ThreeAt(toks, a, p1, '→', b, p2, '↔', c)
    ensures ParseTokens(toks) == Ok(Iff(Implies(a, b), c))
  {
    var n := |toks|;
    AndLevel(toks, 0, a, p1);
    ChainsStop(toks, p1, a);
    OrLevel(toks, 0, a, p1);
    Lift(toks, p1 + 1, b, p2);
    assert ParseImplies(toks, 0) == Ok((Implies(a, b), p2));
    IffLevel(toks, 0, Implies(a, b), p2);
    Lift(toks, p2 + 1, c, n);
    assert IffChain(toks, p2, Implies(a, b)) == IffChain(toks, n, Iff(Implies(a, b), c));
    ChainsStop(toks, n, Iff(Implies(a, b), c));
  }

  lemma ImpliesThenAnd(toks: seq<string>, a: Formula, p1: nat, b: Formula, p2: nat, c: Formula)
    requires ThreeAt(toks, a, p1, '→', b, p2, '∧', c)
    ensures ParseTokens(toks) == Ok(Implies(a, And(b, c)))
  {
    var n := |toks|;
    AndLevel(toks, 0, a, p1);
    ChainsStop(toks, p1, a);
    OrLevel(toks, 0, a, p1);
    AndLevel(toks, p1 + 1, b, p2);
    assert AndChain(toks, p2, b) == AndChain(toks, n, And(b, c));
    ChainsStop(toks, n, And(b, c));
    OrLevel(toks, p1 + 1, And(b, c), n);
    assert ParseImplies(toks, p1 + 1) == Ok((And(b, c), n));
    assert ParseImplies(toks, 0) == Ok((Implies(a, And(b, c)), n));
    IffLevel(toks, 0, Implies(a, And(b, c)), n);
    ChainsStop(toks, n, Implies(a, And(b, c)));
  }

  lemma IffThenOr(toks: seq<string>, a: Formula, p1: nat, b: Formula, p2: nat, c: Formula)
    requires ThreeAt(toks, a, p1, '↔', b, p2, '∨', c)
    ensures ParseTokens(toks) == Ok(Iff(a, Or(b, c)))
  {
    var n := |toks|;
    Lift(toks, 0, a, p1);
    IffLevel(toks, 0, a, p1);
    AndLevel(toks, p1 + 1, b, p2);
    ChainsStop(toks, p2, b);
    OrLevel(toks, p1 + 1, b, p2);
    Lift(toks, p2 + 1, c, n);
    assert OrChain(toks, p2, b) == OrChain(toks, n, Or(b, c));
    ChainsStop(toks, n, Or(b, c));
    assert ParseImplies(toks, p1 + 1) == Ok((Or(b, c), n));
    assert IffChain(toks, p1, a) == IffChain(toks, n, Iff(a, Or(b, c)));
    ChainsStop(toks, n, Iff(a, Or(b, c)));
  }

  lemma IffThenAnd(toks: seq<string>, a: Formula, p1: nat, b: Formula, p2: nat, c: Formula)
    requires ThreeAt(toks, a, p1, '↔', b, p2, '∧', c)
    ensures ParseTokens(toks) == Ok(Iff(a, And(b, c)))
  {
    var n := |toks|;
    Lift(toks, 0, a, p1);
    IffLevel(toks, 0, a, p1);
    AndLevel(toks, p1 + 1, b, p2);
    assert AndChain(toks, p2, b) == AndChain(toks, n, And(b, c));
    ChainsStop(toks, n, And(b, c));
    OrLevel(toks, p1 + 1, And(b, c), n);
    assert ParseImplies(toks, p1 + 1) == Ok((And(b, c), n));
    assert IffChain(toks, p1, a) == IffChain(toks, n, Iff(a, And(b, c)));
    ChainsStop(toks, n, Iff(a, And(b, c)));
  }

  /** How tightly a binary connective binds: `∧` tightest, `↔` loosest. */
  function Binding(op: char): nat
  {
    if op == '∧' then 3 else if op == '∨' then 2 else if op == '→' then 1 else 0
  }

  /** The grouping of `a o1 b o2 c` that precedence and associativity
      prescribe: the tighter connective takes the middle operand; between
      equals, `→` groups to the right and the others to the left. */
  function Grouped(a: Formula, o1: char, b: Formula, o2: char, c: Formula): Formula
    requires IsBinarySymbol(o1) && IsBinarySymbol(o2)
  {
    if Binding(o1) < Binding(o2) || (o1 == '→' && o2 == '→') then Combine(o1, a, Combine(o2, b, c))
    else Combine(o2, Combine(o1, a, b), c)
  }

  /** The printed tokens of `a o1 b o2 c` parse to the prescribed grouping. */
  lemma Grouping(toks: seq<string>, a: Formula, o1: char, b: Formula, o2: char, c: Formula)
    requires IsBinarySymbol(o1) && IsBinarySymbol(o2) && PrintedAt(toks, a, o1, b, o2, c)
    ensures ParseTokens(toks) == Ok(Grouped(a, o1, b, o2, c))
  {
    ThreePrinted(toks, a, o1, b, o2, c);
    var p1 := |ToTokens(a)|;
    var p2 := p1 + 1 + |ToTokens(b)|;
    if o1 == o2 {
      SameGrouping(toks, a, p1, o1, b, p2, c);
    } else if Binding(o1) < Binding(o2) {
      LooserFirst(toks, a, p1, o1, b, p2, o2, c);
    } else {
      TighterFirst(toks, a, p1, o1, b, p2, o2, c);
    }
  }

  /** Twice the same connective. */
  lemma SameGrouping(toks: seq<string>, a: Formula, p1: nat, o: char, b: Formula, p2: nat, c: Formula)
    requires IsBinarySymbol(o) && ThreeAt(toks, a, p1, o, b, p2, o, c)
    ensures ParseTokens(toks) == Ok(Grouped(a, o, b, o, c))
  {
    if o == '∧' {
      AndThenAnd(toks, a, p1, b, p2, c);
    } else if o == '∨' {
      OrThenOr(toks, a, p1, b, p2, c);
    } else if o == '→' {
      ImpliesThenImplies(toks, a, p1, b, p2, c);
    } else {
      IffThenIff(toks, a, p1, b, p2, c);
    }
  }

  /** The looser connective first: the tighter one takes `b` and `c`. */
  lemma LooserFirst(toks: seq<string>, a: Formula, p1: nat, o1: char, b: Formula, p2: nat, o2: char, c: Formula)
    requires IsBinarySymbol(o1) && IsBinarySymbol(o2) && Binding(o1) < Binding(o2)
    requires ThreeAt(toks, a, p1, o1, b, p2, o2, c)
    ensures ParseTokens(toks) == Ok(Combine(o1, a, Combine(o2, b, c)))
  {
    if o1 == '∨' {
      OrThenAnd(toks, a, p1, b, p2, c);
    } else if o1 == '→' {
      if o2 == '∧' {
        ImpliesThenAnd(toks, a, p1, b, p2, c);
      } else {
        ImpliesThenOr(toks, a, p1, b, p2, c);
      }
    } else if o2 == '∧' {
      IffThenAnd(toks, a, p1, b, p2, c);
    } else if o2 == '∨' {
      IffThenOr(toks, a, p1, b, p2, c);
    } else {
      IffThenImplies(toks, a, p1, b, p2, c);
    }
  }

  /** The tighter connective first: it takes `a` and `b`. */
  lemma TighterFirst(toks: seq<string>, a: Formula, p1: nat, o1: char, b: Formula, p2: nat, o2: char, c: Formula)
    requires IsBinarySymbol(o1) && IsBinarySymbol(o2) && Binding(o1) > Binding(o2)
    requires ThreeAt(toks, a, p1, o1, b, p2, o2, c)
    ensures ParseTokens(toks) == Ok(Combine(o2, Combine(o1, a, b), c))
  {
    if o1 == '∧' {
      if o2 == '∨' {
        AndThenOr(toks, a, p1, b, p2, c);
      } else if o2 == '→' {
        AndThenImplies(toks, a, p1, b, p2, c);
      } else {
        AndThenIff(toks, a, p1, b, p2, c);
      }
    } else if o1 == '∨' {
      if o2 == '→' {
        OrThenImplies(toks, a, p1, b, p2, c);
      } else {
        OrThenIff(toks, a, p1, b, p2, c);
      }
    } else {
      ImpliesThenIff(toks, a, p1, b, p2, c);
    }
  }

  // The same, for the printed tokens of any well-named operands.

  /** The printed tokens of well-named `a o1 b o2 c` parse to the
      prescribed grouping. */
  lemma PrintedGrouping(a: Formula, o1: char, b: Formula, o2: char, c: Formula)
    requires IsBinarySymbol(o1) && IsBinarySymbol(o2) && WellNamed(a) && WellNamed(b) && WellNamed(c)
    ensures ParseTokens(ToTokens(a) + [[o1]] + ToTokens(b) + [[o2]] + ToTokens(c)) == Ok(Grouped(a, o1, b, o2, c))
  {
    var ta, tb, tc := ToTokens(a), ToTokens(b), ToTokens(c);
    var toks := ta + [[o1]] + tb + [[o2]] + tc;
    assert PrintedAt(toks, a, o1, b, o2, c) by {
      FiveParts(toks, ta, o1, tb, o2, tc);
    }
    Grouping(toks, a, o1, b, o2, c);
  }

  /** `∧` binds tighter than `∨`: `a ∨ b ∧ c` is `a ∨ (b ∧ c)`. */
  lemma AndBindsTighterThanOr(a: Formula, b: Formula, c: Formula)
    requires WellNamed(a) && WellNamed(b) && WellNamed(c)
    ensures ParseTokens(ToTokens(a) + ["∨"] + ToTokens(b) + ["∧"] + ToTokens(c)) == Ok(Or(a, And(b, c)))
  {
    assert Grouped(a, '∨', b, '∧', c) == Or(a, And(b, c));
    PrintedGrouping(a, '∨', b, '∧', c);
  }

  /** `∨` binds tighter than `→`: `a → b ∨ c` is `a → (b ∨ c)`. */
  lemma OrBindsTighterThanImplies(a: Formula, b: Formula, c: Formula)
    requires WellNamed(a) && WellNamed(b) && WellNamed(c)
    ensures ParseTokens(ToTokens(a) + ["→"] + ToTokens(b) + ["∨"] + ToTokens(c)) == Ok(Implies(a, Or(b, c)))
  {
    assert Grouped(a, '→', b, '∨', c) == Implies(a, Or(b, c));
    PrintedGrouping(a, '→', b, '∨', c);
  }

  /** `→` binds tighter than `↔`: `a ↔ b → c` is `a ↔ (b → c)`. */
  lemma ImpliesBindsTighterThanIff(a: Formula, b: Formula, c: Formula)
    requires WellNamed(a) && WellNamed(b) && WellNamed(c)
    ensures ParseTokens(ToTokens(a) + ["↔"] + ToTokens(b) + ["→"] + ToTokens(c)) == Ok(Iff(a, Implies(b, c)))
  {
    assert Grouped(a, '↔', b, '→', c) == Iff(a, Implies(b, c));
    PrintedGrouping(a, '↔', b, '→', c);
  }

  /** `∧` binds tighter than `→`: `a → b ∧ c` is `a → (b ∧ c)`. */
  lemma AndBindsTighterThanImplies(a: Formula, b: Formula, c: Formula)
    requires WellNamed(a) && WellNamed(b) && WellNamed(c)
    ensures ParseTokens(ToTokens(a) + ["→"] + ToTokens(b) + ["∧"] + ToTokens(c)) == Ok(Implies(a, And(b, c)))
  {
    assert Grouped(a, '→', b, '∧', c) == Implies(a, And(b, c));
    PrintedGrouping(a, '→', b, '∧', c);
  }

  /** `∧` binds tighter than `↔`: `a ↔ b ∧ c` is `a ↔ (b ∧ c)`. */
  lemma AndBindsTighterThanIff(a: Formula, b: Formula, c: Formula)
    requires WellNamed(a) && WellNamed(b) && WellNamed(c)
    ensures ParseTokens(ToTokens(a) + ["↔"] + ToTokens(b) + ["∧"] + ToTokens(c)) == Ok(Iff(a, And(b, c)))
  {
    assert Grouped(a, '↔', b, '∧', c) == Iff(a, And(b, c));
    PrintedGrouping(a, '↔', b, '∧', c);
  }

  /** `∨` binds tighter than `↔`: `a ↔ b ∨ c` is `a ↔ (b ∨ c)`. */
  lemma OrBindsTighterThanIff(a: Formula, b: Formula, c: Formula)
    requires WellNamed(a) && WellNamed(b) && WellNamed(c)
    ensures ParseTokens(ToTokens(a) + ["↔"] + ToTokens(b) + ["∨"] + ToTokens(c)) == Ok(Iff(a, Or(b, c)))
  {
    assert Grouped(a, '↔', b, '∨', c) == Iff(a, Or(b, c));
    PrintedGrouping(a, '↔', b, '∨', c);
  }

  /** A leading `∧` takes the middle operand from `∨`: `a ∧ b ∨ c` is `(a ∧ b) ∨ c`. */
  lemma AndFirstBindsTighterThanOr(a: Formula, b: Formula, c: Formula)
    requires WellNamed(a) && WellNamed(b) && WellNamed(c)
    ensures ParseTokens(ToTokens(a) + ["∧"] + ToTokens(b) + ["∨"] + ToTokens(c)) == Ok(Or(And(a, b), c))
  {
    assert Grouped(a, '∧', b, '∨', c) == Or(And(a, b), c);
    PrintedGrouping(a, '∧', b, '∨', c);
  }

  /** A leading `∧` takes the middle operand from `→`: `a ∧ b → c` is `(a ∧ b) → c`. */
  lemma AndFirstBindsTighterThanImplies(a: Formula, b: Formula, c: Formula)
    requires WellNamed(a) && WellNamed(b) && WellNamed(c)
    ensures ParseTokens(ToTokens(a) + ["∧"] + ToTokens(b) + ["→"] + ToTokens(c)) == Ok(Implies(And(a, b), c))
  {
    assert Grouped(a, '∧', b, '→', c) == Implies(And(a, b), c);
    PrintedGrouping(a, '∧', b, '→', c);
  }

  /** A leading `∧` takes the middle operand from `↔`: `a ∧ b ↔ c` is `(a ∧ b) ↔ c`. */
  lemma AndFirstBindsTighterThanIff(a: Formula, b: Formula, c: Formula)
    requires WellNamed(a) && WellNamed(b) && WellNamed(c)
    ensures ParseTokens(ToTokens(a) + ["∧"] + ToTokens(b) + ["↔"] + ToTokens(c)) == Ok(Iff(And(a, b), c))
  {
    assert Grouped(a, '∧', b, '↔', c) == Iff(And(a, b), c);
    PrintedGrouping(a, '∧', b, '↔', c);
  }

  /** A leading `∨` takes the middle operand from `→`: `a ∨ b → c` is `(a ∨ b) → c`. */
  lemma OrFirstBindsTighterThanImplies(a: Formula, b: Formula, c: Formula)
    requires WellNamed(a) && WellNamed(b) && WellNamed(c)
    ensures ParseTokens(ToTokens(a) + ["∨"] + ToTokens(b) + ["→"] + ToTokens(c)) == Ok(Implies(Or(a, b), c))
  {
    assert Grouped(a, '∨', b, '→', c) == Implies(Or(a, b), c);
    PrintedGrouping(a, '∨', b, '→', c);
  }

  /** A leading `∨` takes the middle operand from `↔`: `a ∨ b ↔ c` is `(a ∨ b) ↔ c`. */
  lemma OrFirstBindsTighterThanIff(a: Formula, b: Formula, c: Formula)
    requires WellNamed(a) && WellNamed(b) && WellNamed(c)
    ensures ParseTokens(ToTokens(a) + ["∨"] + ToTokens(b) + ["↔"] + ToTokens(c)) == Ok(Iff(Or(a, b), c))
  {
    assert Grouped(a, '∨', b, '↔', c) == Iff(Or(a, b), c);
    PrintedGrouping(a, '∨', b, '↔', c);
  }

  /** A leading `→` takes the middle operand from `↔`: `a → b ↔ c` is `(a → b) ↔ c`. */
  lemma ImpliesFirstBindsTighterThanIff(a: Formula, b: Formula, c: Formula)
    requires WellNamed(a) && WellNamed(b) && WellNamed(c)
    ensures ParseTokens(ToTokens(a) + ["→"] + ToTokens(b) + ["↔"] + ToTokens(c)) == Ok(Iff(Implies(a, b), c))
  {
    assert Grouped(a, '→', b, '↔', c) == Iff(Implies(a, b), c);
    PrintedGrouping(a, '→', b, '↔', c);
  }

  /** Implication is right-associative: `a → b → c` is `a → (b → c)`. */
  lemma ImpliesRightAssociative(a: Formula, b: Formula, c: Formula)
    requires WellNamed(a) && WellNamed(b) && WellNamed(c)
    ensures ParseTokens(ToTokens(a) + ["→"] + ToTokens(b) + ["→"] + ToTokens(c)) == Ok(Implies(a, Implies(b, c)))
  {
    assert Grouped(a, '→', b, '→', c) == Implies(a, Implies(b, c));
    PrintedGrouping(a, '→', b, '→', c);
  }

  /** Conjunction is a left-associative chain: `a ∧ b ∧ c` is `(a ∧ b) ∧ c`. */
  lemma AndLeftAssociative(a: Formula, b: Formula, c: Formula)
    requires WellNamed(a) && WellNamed(b) && WellNamed(c)
    ensures ParseTokens(ToTokens(a) + ["∧"] + ToTokens(b) + ["∧"] + ToTokens(c)) == Ok(And(And(a, b), c))
  {
    assert Grouped(a, '∧', b, '∧', c) == And(And(a, b), c);
    PrintedGrouping(a, '∧', b, '∧', c);
  }

  /** Disjunction is a left-associative chain: `a ∨ b ∨ c` is `(a ∨ b) ∨ c`. */
  lemma OrLeftAssociative(a: Formula, b: Formula, c: Formula)
    requires WellNamed(a) && WellNamed(b) && WellNamed(c)
    ensures ParseTokens(ToTokens(a) + ["∨"] + ToTokens(b) + ["∨"] + ToTokens(c)) == Ok(Or(Or(a, b), c))
  {
    assert Grouped(a, '∨', b, '∨', c) == Or(Or(a, b), c);
    PrintedGrouping(a, '∨', b, '∨', c);
  }

  /** The biconditional is a left-associative chain: `a ↔ b ↔ c` is `(a ↔ b) ↔ c`. */
  lemma IffLeftAssociative(a: Formula, b: Formula, c: Formula)
    requires WellNamed(a) && WellNamed(b) && WellNamed(c)
    ensures ParseTokens(ToTokens(a) + ["↔"] + ToTokens(b) + ["↔"] + ToTokens(c)) == Ok(Iff(Iff(a, b), c))
  {
    assert Grouped(a, '↔', b, '↔', c) == Iff(Iff(a, b), c);
    PrintedGrouping(a, '↔', b, '↔', c);
  }

  // ---------------------------------------------------------------------
  // Negation, and the error cases.

  /** Where the three parts of `ta o tb` lie. */
  lemma ThreeParts(toks: seq<string>, ta: seq<string>, o: char, tb: seq<string>)
    requires toks == ta + [[o]] + tb
    ensures |toks| == |ta| + 1 + |tb| && At(toks, 0, ta) && IsSym(toks, |ta|, o) && At(toks, |ta| + 1, tb)
  {
    forall k | 0 <= k < |ta| ensures toks[0 + k] == ta[k] {}
    forall k | 0 <= k < |tb| ensures toks[|ta| + 1 + k] == tb[k] {}
    assert toks[|ta|] == [o];
  }

  /** `toks` is the printed tokens of the well-named `a` and `b` joined by
      the binary connective `op`. */
  ghost predicate PrintedPair(toks: seq<string>, a: Formula, op: char, b: Formula)
  {
    var p1 := |ToTokens(a)|;
    WellNamed(a) && WellNamed(b) && IsBinarySymbol(op) && |toks| == p1 + 1 + |ToTokens(b)|
    && At(toks, 0, ToTokens(a)) && IsSym(toks, p1, op) && At(toks, p1 + 1, ToTokens(b))
  }

  lemma PairParses(toks: seq<string>, a: Formula, op: char, b: Formula)
    requires PrintedPair(toks, a, op, b)
    ensures ParseTokens(toks) == Ok(Combine(op, a, b))
  {
    var p1 := |ToTokens(a)|;
    ParsePrinted(a, toks, 0);
    ParsePrinted(b, toks, p1 + 1);
    Between(toks, 0, a, p1, op, b, |toks|);
  }

  /** Negation binds tighter than every binary connective: `¬a op b` is
      `(¬a) op b`. */
  lemma NotBindsTightest(a: Formula, op: char, b: Formula)
    requires WellNamed(a) && WellNamed(b) && IsBinarySymbol(op)
    ensures ParseTokens(["¬"] + ToTokens(a) + [[op]] + ToTokens(b)) == Ok(Combine(op, Not(a), b))
  {
    var ta, tb := ToTokens(Not(a)), ToTokens(b);
    assert ta == ["¬"] + ToTokens(a);
    assert Vars(Not(a)) == Vars(a);
    var toks := ta + [[op]] + tb;
    ThreeParts(toks, ta, op, tb);
    PairParses(toks, Not(a), op, b);
  }

  /** Negations stack: `¬¬a` is `¬(¬a)`. */
  lemma NegationsStack(a: Formula)
    requires WellNamed(a)
    ensures ParseTokens(["¬", "¬"] + ToTokens(a)) == Ok(Not(Not(a)))
  {
    var t := ToTokens(a);
    assert ToTokens(Not(Not(a))) == ["¬", "¬"] + t by {
      assert ToTokens(Not(a)) == ["¬"] + t;
    }
    assert WellNamed(Not(Not(a))) by {
      assert Vars(Not(Not(a))) == Vars(a);
    }
    PrintedTokensRoundTrip(Not(Not(a)));
  }

  /** A token that starts no formula fails the not level where it stands. */
  lemma NoPrimary(toks: seq<string>, pos: nat)
    requires pos <= |toks| && !IsSym(toks, pos, '(') && !IsSym(toks, pos, '¬')
    requires pos < |toks| ==> |toks[pos]| == 0 || !IsAlpha(toks[pos][0])
    ensures ParseNot(toks, pos) == Err(UnexpectedInPrimary(Current(toks, pos)))
  {
  }

  /** A list that starts with neither `(`, `¬` nor a name fails at once,
      naming its first token. */
  lemma BadStart(toks: seq<string>)
    requires |toks| > 0 && !IsSym(toks, 0, '(') && !IsSym(toks, 0, '¬')
    requires |toks[0]| == 0 || !IsAlpha(toks[0][0])
    ensures ParseTokens(toks) == Err(UnexpectedInPrimary(Some(toks[0])))
  {
    NoPrimary(toks, 0);
    NotErrorPropagates(toks, 0);
  }

  /** The token `t` is a binary connective. */
  predicate IsConnective(t: string)
  {
    |t| == 1 && IsBinarySymbol(t[0])
  }

  /** A complete formula followed by a token that continues no level is
      rejected as a trailing token. */
  lemma TrailingToken(f: Formula, x: string)
    requires WellNamed(f) && !IsConnective(x)
    ensures ParseTokens(ToTokens(f) + [x]) == Err(UnexpectedToken(x))
  {
    var t := ToTokens(f);
    var toks := t + [x];
    assert At(toks, 0, t) by {
      forall k | 0 <= k < |t| ensures toks[0 + k] == t[k] {}
    }
    assert toks[|t|] == x;
    ParsePrinted(f, toks, 0);
    Lift(toks, 0, f, |t|);
  }

  /** An opening parenthesis whose formula runs to the end of the list is
      missing its `)`. */
  lemma MissingClose(f: Formula)
    requires WellNamed(f)
    ensures ParseTokens(["("] + ToTokens(f)) == Err(Expected(")", None))
  {
    var t := ToTokens(f);
    var toks := ["("] + t;
    assert At(toks, 1, t) by {
      forall k | 0 <= k < |t| ensures toks[1 + k] == t[k] {}
    }
    assert toks[0] == "(";
    ParsePrinted(f, toks, 1);
    Lift(toks, 1, f, |toks|);
    Unclosed(toks, f, |toks|);
  }

  /** A parenthesised formula followed by a token other than `)` or a
      connective names that token as what stood where `)` was expected. */
  lemma MismatchedClose(f: Formula, x: string)
    requires WellNamed(f) && !IsConnective(x) && x != ")"
    ensures ParseTokens(["("] + ToTokens(f) + [x]) == Err(Expected(")", Some(x)))
  {
    var t := ToTokens(f);
    var toks := ["("] + t + [x];
    assert At(toks, 1, t) by {
      forall k | 0 <= k < |t| ensures toks[1 + k] == t[k] {}
    }
    assert toks[0] == "(" && toks[|t| + 1] == x;
    ParsePrinted(f, toks, 1);
    Lift(toks, 1, f, |t| + 1);
    Unclosed(toks, f, |t| + 1);
  }

  /** The inner formula of a leading `(` is read but not closed. */
  lemma Unclosed(toks: seq<string>, f: Formula, p: nat)
    requires |toks| > 0 && toks[0] == "(" && 1 <= p <= |toks|
    requires ParseIff(toks, 1) == Ok((f, p)) && !IsSym(toks, p, ')')
    ensures ParseTokens(toks) == Err(Expected(")", Current(toks, p)))
  {
    NotErrorPropagates(toks, 0);
  }

  /** A formula followed by a connective with nothing after it: the missing
      right operand is reported at the primary level, at the end of input. */
  lemma DanglingOperator(f: Formula, op: char)
    requires WellNamed(f) && IsBinarySymbol(op)
    ensures ParseTokens(ToTokens(f) + [[op]]) == Err(UnexpectedInPrimary(None))
  {
    var t := ToTokens(f);
    var toks := t + [[op]];
    assert At(toks, 0, t) by {
      forall k | 0 <= k < |t| ensures toks[0 + k] == t[k] {}
    }
    assert toks[|t|] == [op];
    ParsePrinted(f, toks, 0);
    Dangling(toks, f, |t|, op);
  }

  lemma Dangling(toks: seq<string>, f: Formula, p: nat, op: char)
    requires p + 1 == |toks| && IsSym(toks, p, op) && IsBinarySymbol(op)
    requires ParseNot(toks, 0) == Ok((f, p))
    ensures ParseTokens(toks) == Err(UnexpectedInPrimary(None))
  {
    var e := Err(UnexpectedInPrimary(None));
    NoPrimary(toks, p + 1);
    NotErrorPropagates(toks, p + 1);
    AndLevel(toks, 0, f, p);
    if op == '∧' {
      assert ParseAnd(toks, 0) == e;
      assert ParseOr(toks, 0) == e;
      assert ParseImplies(toks, 0) == e;
      assert ParseIff(toks, 0) == e;
    } else {
      ChainsStop(toks, p, f);
      OrLevel(toks, 0, f, p);
      if op == '∨' {
        assert ParseOr(toks, 0) == e;
        assert ParseImplies(toks, 0) == e;
        assert ParseIff(toks, 0) == e;
      } else if op == '→' {
        assert ParseImplies(toks, 0) == e;
        assert ParseIff(toks, 0) == e;
      } else {
        assert ParseImplies(toks, 0) == Ok((f, p));
        IffLevel(toks, 0, f, p);
      }
    }
  }
}
