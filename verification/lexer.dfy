/** `FormulaParser._tokenize` (bdd/formula.py): operator spellings are
    first rewritten to their symbolic forms with `str.replace`, longer
    ASCII spellings before the single characters they contain, then the
    text is split into tokens. Tokens are strings, as in the source: a
    one-character symbol or a variable name. */
module Lexer {
  import opened Results

  const NotSym: char := '¬'
  const AndSym: char := '∧'
  const OrSym: char := '∨'
  const ImpliesSym: char := '→'
  const IffSym: char := '↔'

  /** The characters that form a token on their own: `'()¬∧∨→↔'`. */
  predicate IsSymbol(c: char)
  {
    c == '(' || c == ')' || c == NotSym || c == AndSym || c == OrSym || c == ImpliesSym || c == IffSym
  }

  /** Python's `str.replace(pat, rep)`: every occurrence of `pat`, found
      left to right without overlap, is replaced by `rep`. */
  function Replace(s: string, pat: string, rep: string): (r: string)
    requires |pat| > 0
    ensures (forall k :: 0 <= k < |s| ==> s[k] != pat[0]) ==> r == s
    ensures forall c :: c in r ==> c in s || c in rep
    ensures |pat| == 1 && pat[0] !in rep ==> pat[0] !in r
    decreases |s|
  {
    if |s| < |pat| then s
    else if s[..|pat|] == pat then
      var rest := Replace(s[|pat|..], pat, rep);
      assert forall c :: c in s[|pat|..] ==> c in s;
      rep + rest
    else
      var rest := Replace(s[1..], pat, rep);
      assert forall c :: c in s[1..] ==> c in s;
      assert |pat| == 1 ==> s[0] != pat[0] by {
        if |pat| == 1 { assert s[..1] == [s[0]]; }
      }
      [s[0]] + rest
  }

  /** The characters that begin some ASCII operator spelling. */
  predicate IsAsciiOperatorStart(c: char)
  {
    c == '<' || c == '-' || c == '=' || c == '/' || c == '\\' || c == '~' || c == '!' || c == '&' || c == '|'
  }

  /** The first rewriting phase of `_tokenize`: the multi-character ASCII
      spellings, longest first. */
  function RewriteMultiChar(s: string): (r: string)
    ensures (forall k :: 0 <= k < |s| ==> !IsAsciiOperatorStart(s[k])) ==> r == s
  {
    var s1 := Replace(s, "<->", "↔");
    var s2 := Replace(s1, "<=>", "↔");
    var s3 := Replace(s2, "->", "→");
    var s4 := Replace(s3, "=>", "→");
    var s5 := Replace(s4, "/\\", "∧");
    Replace(s5, "\\/", "∨")
  }

  /** The second phase: the single-character spellings `~ ! & |`. */
  function RewriteSingleChar(s: string): (r: string)
    ensures '~' !in r && '!' !in r && '&' !in r && '|' !in r
    ensures (forall k :: 0 <= k < |s| ==> !IsAsciiOperatorStart(s[k])) ==> r == s
  {
    var s1 := Replace(s, "~", "¬");
    var s2 := Replace(s1, "!", "¬");
    var s3 := Replace(s2, "&", "∧");
    Replace(s3, "|", "∨")
  }

  /** All rewriting of `_tokenize`, multi-character spellings first. */
  function Normalize(s: string): (r: string)
    ensures '~' !in r && '!' !in r && '&' !in r && '|' !in r
    ensures (forall k :: 0 <= k < |s| ==> !IsAsciiOperatorStart(s[k])) ==> r == s
  {
    RewriteSingleChar(RewriteMultiChar(s))
  }

  /** `str.isspace` on ASCII characters. */
  predicate IsSpace(c: char)
  {
    c == ' ' || c == '\t' || c == '\n' || c == '\r' || c == '\U{000B}' || c == '\U{000C}'
    || c == '\U{001C}' || c == '\U{001D}' || c == '\U{001E}' || c == '\U{001F}'
  }

  /** `str.isalpha` on ASCII characters. */
  predicate IsAlpha(c: char)
  {
    ('a' <= c <= 'z') || ('A' <= c <= 'Z')
  }

  /** A character that may continue a name: `isalnum()` or `_`. */
  predicate IsNameChar(c: char)
  {
    IsAlpha(c) || ('0' <= c <= '9') || c == '_'
  }

  /** A variable name as the tokenizer reads it: a letter, then letters,
      digits or underscores. */
  predicate IsName(t: string)
  {
    |t| > 0 && IsAlpha(t[0]) && forall k :: 0 < k < |t| ==> IsNameChar(t[k])
  }

  /** A token `_tokenize` can produce. */
  predicate IsToken(t: string)
  {
    (|t| == 1 && IsSymbol(t[0])) || IsName(t)
  }

  /** The length of the longest prefix made of name characters. */
  function NameLength(s: string): (n: nat)
    ensures n <= |s|
    ensures forall k :: 0 <= k < n ==> IsNameChar(s[k])
    ensures n < |s| ==> !IsNameChar(s[n])
  {
    if |s| == 0 || !IsNameChar(s[0]) then 0
    else 1 + NameLength(s[1..])
  }

  /** The scanning loop of `_tokenize` over already rewritten text: skip
      whitespace, emit one-character symbols, read names greedily, and
      reject the first character that is none of these. */
  function Scan(s: string): (r: Result<seq<string>>)
    ensures r.Ok? ==> forall k :: 0 <= k < |r.value| ==> IsToken(r.value[k])
    ensures r.Err? ==>
      r.error.UnexpectedChar? && r.error.ch in s && !IsSpace(r.error.ch)
      && !IsSymbol(r.error.ch) && !IsAlpha(r.error.ch)
    decreases |s|
  {
    if |s| == 0 then Ok([])
    else if IsSpace(s[0]) then
      var rest := Scan(s[1..]);
      assert rest.Err? ==> rest.error.ch in s by {
        if rest.Err? { assert forall c :: c in s[1..] ==> c in s; }
      }
      rest
    else if IsSymbol(s[0]) then
      var rest :- Scan(s[1..]);
      Ok([[s[0]]] + rest)
    else if IsAlpha(s[0]) then
      var n := NameLength(s);
      var rest :- Scan(s[n..]);
      Ok([s[..n]] + rest)
    else
      Err(UnexpectedChar(s[0]))
  }

  /** `_tokenize`. */
  function Tokenize(s: string): (r: Result<seq<string>>)
    ensures r.Ok? ==> forall k :: 0 <= k < |r.value| ==> IsToken(r.value[k])
  {
    Scan(Normalize(s))
  }

  /** The tokens `ts` in front of a scan result, or the same failure. */
  function Prepend(ts: seq<string>, r: Result<seq<string>>): Result<seq<string>>
  {
    match r
    case Ok(us) => Ok(ts + us)
    case Err(e) => Err(e)
  }

  lemma PrependTwice(a: seq<string>, b: seq<string>, r: Result<seq<string>>)
    ensures Prepend(a, Prepend(b, r)) == Prepend(a + b, r)
  {
    if r.Ok? {
      assert a + (b + r.value) == (a + b) + r.value;
    }
  }

  lemma ScanSpace(c: char, rest: string)
    requires IsSpace(c)
    ensures Scan([c] + rest) == Scan(rest)
  {
    assert ([c] + rest)[1..] == rest;
  }

  lemma ScanSymbol(c: char, rest: string)
    requires IsSymbol(c)
    ensures Scan([c] + rest) == Prepend([[c]], Scan(rest))
  {
    assert ([c] + rest)[1..] == rest;
  }

  lemma {:induction false} NameLengthOfName(n: string, rest: string)
    requires forall k :: 0 <= k < |n| ==> IsNameChar(n[k])
    requires |rest| == 0 || !IsNameChar(rest[0])
    ensures NameLength(n + rest) == |n|
    decreases |n|
  {
    if |n| > 0 {
      assert (n + rest)[1..] == n[1..] + rest;
      NameLengthOfName(n[1..], rest);
    } else {
      assert n + rest == rest;
    }
  }

  /** A name is read whole when what follows cannot continue it. */
  lemma ScanName(n: string, rest: string)
    requires IsName(n)
    requires |rest| == 0 || !IsNameChar(rest[0])
    ensures Scan(n + rest) == Prepend([n], Scan(rest))
  {
    NameLengthOfName(n, rest);
    assert (n + rest)[..|n|] == n;
    assert (n + rest)[|n|..] == rest;
  }

  /** A pattern whose first character does not occur is never replaced. */
  lemma ReplaceAbsent(s: string, pat: string, rep: string)
    requires |pat| > 0 && pat[0] !in s
    ensures Replace(s, pat, rep) == s
  {
    assert forall k :: 0 <= k < |s| ==> s[k] != pat[0];
  }

  /** `str.replace` copies a prefix in which the pattern cannot start. */
  lemma {:induction false} ReplaceCleanPrefix(a: string, t: string, pat: string, rep: string)
    requires |pat| > 0 && pat[0] !in a
    ensures Replace(a + t, pat, rep) == a + Replace(t, pat, rep)
    decreases |a|
  {
    if |a| > 0 {
      var s := a + t;
      assert s[0] == a[0];
      if |s| >= |pat| {
        assert s[..|pat|] != pat by { assert s[..|pat|][0] == a[0]; }
      }
      assert s[1..] == a[1..] + t;
      ReplaceCleanPrefix(a[1..], t, pat, rep);
      assert a == [a[0]] + a[1..];
    } else {
      assert a + t == t;
    }
  }

  /** An occurrence at the front is replaced and the scan resumes after it. */
  lemma ReplaceAtFront(t: string, pat: string, rep: string)
    requires |pat| > 0
    ensures Replace(pat + t, pat, rep) == rep + Replace(t, pat, rep)
  {
    assert (pat + t)[..|pat|] == pat;
    assert (pat + t)[|pat|..] == t;
  }

  /** Variable names contain no ASCII operator spelling. */
  lemma NameIsPlain(n: string)
    requires IsName(n)
    ensures forall k :: 0 <= k < |n| ==> !IsAsciiOperatorStart(n[k]) && !IsSpace(n[k]) && !IsSymbol(n[k])
  {
  }

  /** Text whose multi-character phase leaves no ASCII operator spelling is
      scanned as the first phase left it. */
  lemma TokenizeAfterRewriting(s: string, m: string)
    requires RewriteMultiChar(s) == m
    requires forall k :: 0 <= k < |m| ==> !IsAsciiOperatorStart(m[k])
    ensures Tokenize(s) == Scan(m)
  {
  }

  // ---------------------------------------------------------------------
  // The ASCII spellings, each between two names or in front of one

  /** No ASCII operator character occurs in `p mid q` beyond those of
      `mid`. */
  lemma InfixChars(p: string, mid: string, q: string, c: char)
    requires IsName(p) && IsName(q) && IsAsciiOperatorStart(c) && c !in mid
    ensures c !in p + " " + mid + " " + q
  {
    NameIsPlain(p);
    NameIsPlain(q);
  }

  /** A pattern starting with an ASCII operator character that `mid` lacks
      leaves `p mid q` unchanged. */
  lemma ReplaceMissing(p: string, q: string, mid: string, pat: string, rep: string)
    requires IsName(p) && IsName(q) && |pat| > 0
    requires IsAsciiOperatorStart(pat[0]) && pat[0] !in mid
    ensures Replace(p + " " + mid + " " + q, pat, rep) == p + " " + mid + " " + q
  {
    InfixChars(p, mid, q, pat[0]);
    ReplaceAbsent(p + " " + mid + " " + q, pat, rep);
  }

  /** A pattern standing between two names is replaced there and nowhere
      else. */
  lemma ReplaceMiddle(p: string, q: string, pat: string, rep: string)
    requires IsName(p) && IsName(q) && |pat| > 0 && IsAsciiOperatorStart(pat[0])
    ensures Replace(p + " " + pat + " " + q, pat, rep) == p + " " + rep + " " + q
  {
    NameIsPlain(p);
    NameIsPlain(q);
    var sq := " " + q;
    assert pat[0] !in p + " " && pat[0] !in sq;
    ReplaceCleanPrefix(p + " ", pat + sq, pat, rep);
    ReplaceAtFront(sq, pat, rep);
    ReplaceAbsent(sq, pat, rep);
    assert (p + " ") + (pat + sq) == p + " " + pat + " " + q;
    assert (p + " ") + (rep + sq) == p + " " + rep + " " + q;
  }

  /** `p c q` for a symbol `c` is left alone by the single-character
      phase. */
  lemma SingleKeepsSymbol(p: string, q: string, c: char)
    requires IsName(p) && IsName(q) && IsSymbol(c)
    ensures RewriteSingleChar(p + " " + [c] + " " + q) == p + " " + [c] + " " + q
  {
    var s := p + " " + [c] + " " + q;
    InfixChars(p, [c], q, '~');
    InfixChars(p, [c], q, '!');
    InfixChars(p, [c], q, '&');
    InfixChars(p, [c], q, '|');
    ReplaceAbsent(s, "~", "¬");
    ReplaceAbsent(s, "!", "¬");
    ReplaceAbsent(s, "&", "∧");
    ReplaceAbsent(s, "|", "∨");
  }

  /** `p c q` for a symbol `c` scans as three tokens. */
  lemma ScanInfix(p: string, q: string, c: char)
    requires IsName(p) && IsName(q) && IsSymbol(c)
    ensures Scan(p + " " + [c] + " " + q) == Ok([p, [c], q])
  {
    var t1 := " " + q;
    var t2 := [c] + t1;
    var t3 := " " + t2;
    ScanName(q, "");
    assert q + "" == q;
    assert Scan("") == Ok([]);
    assert [q] + [] == [q];
    ScanSpace(' ', q);
    ScanSymbol(c, t1);
    assert [[c]] + [q] == [[c], q];
    ScanSpace(' ', t2);
    ScanName(p, t3);
    assert [p] + [[c], q] == [p, [c], q];
    assert p + t3 == p + " " + [c] + " " + q;
  }

  /** `¬` in front of a name scans as two tokens. */
  lemma SymbolPrefix(p: string)
    requires IsName(p)
    ensures Scan("¬" + p) == Ok(["¬", p])
  {
    ScanName(p, "");
    assert p + "" == p;
    assert Scan("") == Ok([]);
    assert [p] + [] == [p];
    ScanSymbol('¬', p);
    assert "¬" == ['¬'];
    assert [['¬']] + [p] == ["¬", p];
  }

  /** Text that the multi-character phase turns into `p c q` is read as
      those three tokens. */
  lemma TokenizeInfix(s: string, p: string, q: string, c: char)
    requires IsName(p) && IsName(q) && IsSymbol(c)
    requires RewriteMultiChar(s) == p + " " + [c] + " " + q
    ensures Tokenize(s) == Ok([p, [c], q])
  {
    SingleKeepsSymbol(p, q, c);
    ScanInfix(p, q, c);
  }

  /** Text that the single-character phase turns into `p c q`, and that
      the multi-character phase leaves alone, is read as three tokens. */
  lemma TokenizeSingleInfix(s: string, p: string, q: string, c: char)
    requires IsName(p) && IsName(q) && IsSymbol(c)
    requires RewriteMultiChar(s) == s
    requires RewriteSingleChar(s) == p + " " + [c] + " " + q
    ensures Tokenize(s) == Ok([p, [c], q])
  {
    SingleKeepsSymbol(p, q, c);
    ScanInfix(p, q, c);
  }

  /** The multi-character phase leaves a spelling `sp` between names alone
      when `sp` holds none of the characters its patterns start with. */
  lemma MultiKeepsInfix(p: string, q: string, sp: string)
    requires IsName(p) && IsName(q)
    requires '<' !in sp && '-' !in sp && '=' !in sp && '/' !in sp && '\\' !in sp
    ensures RewriteMultiChar(p + " " + sp + " " + q) == p + " " + sp + " " + q
  {
    ReplaceMissing(p, q, sp, "<->", "↔");
    ReplaceMissing(p, q, sp, "<=>", "↔");
    ReplaceMissing(p, q, sp, "->", "→");
    ReplaceMissing(p, q, sp, "=>", "→");
    ReplaceMissing(p, q, sp, "/\\", "∧");
    ReplaceMissing(p, q, sp, "\\/", "∨");
  }

  lemma IffRewriting(p: string, q: string)
    requires IsName(p) && IsName(q)
    ensures RewriteMultiChar(p + " " + "<->" + " " + q) == p + " " + "↔" + " " + q
  {
    ReplaceMiddle(p, q, "<->", "↔");
    ReplaceMissing(p, q, "↔", "<=>", "↔");
    ReplaceMissing(p, q, "↔", "->", "→");
    ReplaceMissing(p, q, "↔", "=>", "→");
    ReplaceMissing(p, q, "↔", "/\\", "∧");
    ReplaceMissing(p, q, "↔", "\\/", "∨");
  }

  /** `<->` is rewritten first, so it becomes `↔`. */
  lemma IffSpelling(p: string, q: string)
    requires IsName(p) && IsName(q)
    ensures Tokenize(p + " <-> " + q) == Ok([p, "↔", q])
  {
    assert p + " <-> " + q == p + " " + "<->" + " " + q;
    IffRewriting(p, q);
    assert "↔" == [IffSym];
    TokenizeInfix(p + " " + "<->" + " " + q, p, q, IffSym);
  }

  /** The `<->` pass does not start inside `<=>`. */
  lemma EquivFront(t: string)
    requires '<' !in t
    ensures Replace("<=>" + t, "<->", "↔") == "<=>" + t
  {
    var m := "<=>" + t;
    assert m[..3] != "<->" by { assert m[..3][1] == '='; }
    assert m[1..] == "=>" + t;
    ReplaceAbsent(m[1..], "<->", "↔");
    assert m == [m[0]] + m[1..];
  }

  lemma EquivSkipped(p: string, q: string)
    requires IsName(p) && IsName(q)
    ensures Replace(p + " " + "<=>" + " " + q, "<->", "↔") == p + " " + "<=>" + " " + q
  {
    NameIsPlain(p);
    NameIsPlain(q);
    var sq := " " + q;
    assert '<' !in sq;
    EquivFront(sq);
    assert '<' !in p + " ";
    ReplaceCleanPrefix(p + " ", "<=>" + sq, "<->", "↔");
    assert (p + " ") + ("<=>" + sq) == p + " " + "<=>" + " " + q;
  }

  lemma EquivRewriting(p: string, q: string)
    requires IsName(p) && IsName(q)
    ensures RewriteMultiChar(p + " " + "<=>" + " " + q) == p + " " + "↔" + " " + q
  {
    EquivSkipped(p, q);
    ReplaceMiddle(p, q, "<=>", "↔");
    ReplaceMissing(p, q, "↔", "->", "→");
    ReplaceMissing(p, q, "↔", "=>", "→");
    ReplaceMissing(p, q, "↔", "/\\", "∧");
    ReplaceMissing(p, q, "↔", "\\/", "∨");
  }

  /** `<=>` is not taken for `<->`, and becomes `↔`. */
  lemma EquivSpelling(p: string, q: string)
    requires IsName(p) && IsName(q)
    ensures Tokenize(p + " <=> " + q) == Ok([p, "↔", q])
  {
    assert p + " <=> " + q == p + " " + "<=>" + " " + q;
    EquivRewriting(p, q);
    assert "↔" == [IffSym];
    TokenizeInfix(p + " " + "<=>" + " " + q, p, q, IffSym);
  }

  lemma ArrowRewriting(p: string, q: string)
    requires IsName(p) && IsName(q)
    ensures RewriteMultiChar(p + " " + "->" + " " + q) == p + " " + "→" + " " + q
  {
    ReplaceMissing(p, q, "->", "<->", "↔");
    ReplaceMissing(p, q, "->", "<=>", "↔");
    ReplaceMiddle(p, q, "->", "→");
    ReplaceMissing(p, q, "→", "=>", "→");
    ReplaceMissing(p, q, "→", "/\\", "∧");
    ReplaceMissing(p, q, "→", "\\/", "∨");
  }

  /** The multi-character spellings are rewritten before their single
      characters, so `p -> q` gives one implication token rather than an
      unknown `-` followed by `>`. */
  lemma ArrowSpelling(p: string, q: string)
    requires IsName(p) && IsName(q)
    ensures Tokenize(p + " -> " + q) == Ok([p, "→", q])
  {
    assert p + " -> " + q == p + " " + "->" + " " + q;
    ArrowRewriting(p, q);
    assert "→" == [ImpliesSym];
    TokenizeInfix(p + " " + "->" + " " + q, p, q, ImpliesSym);
  }

  lemma DoubleArrowRewriting(p: string, q: string)
    requires IsName(p) && IsName(q)
    ensures RewriteMultiChar(p + " " + "=>" + " " + q) == p + " " + "→" + " " + q
  {
    ReplaceMissing(p, q, "=>", "<->", "↔");
    ReplaceMissing(p, q, "=>", "<=>", "↔");
    ReplaceMissing(p, q, "=>", "->", "→");
    ReplaceMiddle(p, q, "=>", "→");
    ReplaceMissing(p, q, "→", "/\\", "∧");
    ReplaceMissing(p, q, "→", "\\/", "∨");
  }

  /** `=>` becomes `→`. */
  lemma DoubleArrowSpelling(p: string, q: string)
    requires IsName(p) && IsName(q)
    ensures Tokenize(p + " => " + q) == Ok([p, "→", q])
  {
    assert p + " => " + q == p + " " + "=>" + " " + q;
    DoubleArrowRewriting(p, q);
    assert "→" == [ImpliesSym];
    TokenizeInfix(p + " " + "=>" + " " + q, p, q, ImpliesSym);
  }

  lemma WedgeRewriting(p: string, q: string)
    requires IsName(p) && IsName(q)
    ensures RewriteMultiChar(p + " " + "/\\" + " " + q) == p + " " + "∧" + " " + q
  {
    ReplaceMissing(p, q, "/\\", "<->", "↔");
    ReplaceMissing(p, q, "/\\", "<=>", "↔");
    ReplaceMissing(p, q, "/\\", "->", "→");
    ReplaceMissing(p, q, "/\\", "=>", "→");
    ReplaceMiddle(p, q, "/\\", "∧");
    ReplaceMissing(p, q, "∧", "\\/", "∨");
  }

  /** `/\` becomes `∧`. */
  lemma WedgeSpelling(p: string, q: string)
    requires IsName(p) && IsName(q)
    ensures Tokenize(p + " /\\ " + q) == Ok([p, "∧", q])
  {
    assert p + " /\\ " + q == p + " " + "/\\" + " " + q;
    WedgeRewriting(p, q);
    assert "∧" == [AndSym];
    TokenizeInfix(p + " " + "/\\" + " " + q, p, q, AndSym);
  }

  /** The `/\` pass does not start inside `\/`. */
  lemma VeeFront(t: string)
    requires '/' !in t && |t| > 0 && t[0] == ' '
    ensures Replace("/" + t, "/\\", "∧") == "/" + t
  {
    var m := "/" + t;
    assert m[..2] != "/\\" by { assert m[..2][1] == ' '; }
    assert m[1..] == t;
    ReplaceAbsent(t, "/\\", "∧");
    assert m == [m[0]] + m[1..];
  }

  lemma VeeSkipped(p: string, q: string)
    requires IsName(p) && IsName(q)
    ensures Replace(p + " " + "\\/" + " " + q, "/\\", "∧") == p + " " + "\\/" + " " + q
  {
    NameIsPlain(p);
    NameIsPlain(q);
    var sq := " " + q;
    assert '/' !in sq;
    VeeFront(sq);
    assert '/' !in p + " \\";
    ReplaceCleanPrefix(p + " \\", "/" + sq, "/\\", "∧");
    assert (p + " \\") + ("/" + sq) == p + " " + "\\/" + " " + q;
  }

  lemma VeeRewriting(p: string, q: string)
    requires IsName(p) && IsName(q)
    ensures RewriteMultiChar(p + " " + "\\/" + " " + q) == p + " " + "∨" + " " + q
  {
    ReplaceMissing(p, q, "\\/", "<->", "↔");
    ReplaceMissing(p, q, "\\/", "<=>", "↔");
    ReplaceMissing(p, q, "\\/", "->", "→");
    ReplaceMissing(p, q, "\\/", "=>", "→");
    VeeSkipped(p, q);
    ReplaceMiddle(p, q, "\\/", "∨");
  }

  /** `\/` is not taken for `/\`, and becomes `∨`. */
  lemma VeeSpelling(p: string, q: string)
    requires IsName(p) && IsName(q)
    ensures Tokenize(p + " \\/ " + q) == Ok([p, "∨", q])
  {
    assert p + " \\/ " + q == p + " " + "\\/" + " " + q;
    VeeRewriting(p, q);
    assert "∨" == [OrSym];
    TokenizeInfix(p + " " + "\\/" + " " + q, p, q, OrSym);
  }

  lemma AmpersandRewriting(p: string, q: string)
    requires IsName(p) && IsName(q)
    ensures RewriteSingleChar(p + " " + "&" + " " + q) == p + " " + "∧" + " " + q
  {
    ReplaceMissing(p, q, "&", "~", "¬");
    ReplaceMissing(p, q, "&", "!", "¬");
    ReplaceMiddle(p, q, "&", "∧");
    ReplaceMissing(p, q, "∧", "|", "∨");
  }

  /** `&` becomes `∧`. */
  lemma AmpersandSpelling(p: string, q: string)
    requires IsName(p) && IsName(q)
    ensures Tokenize(p + " & " + q) == Ok([p, "∧", q])
  {
    assert p + " & " + q == p + " " + "&" + " " + q;
    MultiKeepsInfix(p, q, "&");
    AmpersandRewriting(p, q);
    assert "∧" == [AndSym];
    TokenizeSingleInfix(p + " " + "&" + " " + q, p, q, AndSym);
  }

  lemma BarRewriting(p: string, q: string)
    requires IsName(p) && IsName(q)
    ensures RewriteSingleChar(p + " " + "|" + " " + q) == p + " " + "∨" + " " + q
  {
    ReplaceMissing(p, q, "|", "~", "¬");
    ReplaceMissing(p, q, "|", "!", "¬");
    ReplaceMissing(p, q, "|", "&", "∧");
    ReplaceMiddle(p, q, "|", "∨");
  }

  /** `|` becomes `∨`. */
  lemma BarSpelling(p: string, q: string)
    requires IsName(p) && IsName(q)
    ensures Tokenize(p + " | " + q) == Ok([p, "∨", q])
  {
    assert p + " | " + q == p + " " + "|" + " " + q;
    MultiKeepsInfix(p, q, "|");
    BarRewriting(p, q);
    assert "∨" == [OrSym];
    TokenizeSingleInfix(p + " " + "|" + " " + q, p, q, OrSym);
  }

  /** The multi-character phase leaves a negation spelling in front of a
      name alone. */
  lemma MultiKeepsPrefix(p: string, sp: string)
    requires IsName(p) && (sp == "~" || sp == "!")
    ensures RewriteMultiChar(sp + p) == sp + p
  {
    NameIsPlain(p);
    var s := sp + p;
    forall k | 0 <= k < |s| ensures !IsAsciiOperatorStart(s[k]) || s[k] == sp[0] {
      if k > 0 { assert s[k] == p[k - 1]; }
    }
    ReplaceAbsent(s, "<->", "↔");
    ReplaceAbsent(s, "<=>", "↔");
    ReplaceAbsent(s, "->", "→");
    ReplaceAbsent(s, "=>", "→");
    ReplaceAbsent(s, "/\\", "∧");
    ReplaceAbsent(s, "\\/", "∨");
  }

  lemma NegationRewriting(p: string, sp: string)
    requires IsName(p) && (sp == "~" || sp == "!")
    ensures RewriteSingleChar(sp + p) == "¬" + p
  {
    NameIsPlain(p);
    var t := "¬" + p;
    assert forall k :: 0 <= k < |t| ==> !IsAsciiOperatorStart(t[k]) by {
      forall k | 0 <= k < |t| ensures !IsAsciiOperatorStart(t[k]) {
        if k > 0 { assert t[k] == p[k - 1]; }
      }
    }
    ReplaceAbsent(p, sp, "¬");
    ReplaceAtFront(p, sp, "¬");
    ReplaceAbsent(t, "!", "¬");
    ReplaceAbsent(t, "&", "∧");
    ReplaceAbsent(t, "|", "∨");
    if sp == "!" {
      assert sp[0] !in "~" + "";
      ReplaceAbsent(sp + p, "~", "¬");
    }
  }

  /** `~` and `!` in front of a name both become `¬`. */
  lemma NegationSpelling(p: string, sp: string)
    requires IsName(p) && (sp == "~" || sp == "!")
    ensures Tokenize(sp + p) == Ok(["¬", p])
  {
    MultiKeepsPrefix(p, sp);
    NegationRewriting(p, sp);
    SymbolPrefix(p);
  }

  /** Text between names with only spaces and `>` is left as it is. */
  lemma PlainBetweenNames(p: string, q: string)
    requires IsName(p) && IsName(q)
    ensures Normalize(p + " > " + q) == p + " > " + q
  {
    var a := p + " > " + q;
    NameIsPlain(p);
    NameIsPlain(q);
    forall k | 0 <= k < |a| ensures !IsAsciiOperatorStart(a[k]) {
      assert a[k] in p || a[k] == ' ' || a[k] == '>' || a[k] in q;
    }
  }

  lemma ScanReject(c: char, rest: string)
    requires !IsSpace(c) && !IsSymbol(c) && !IsAlpha(c)
    ensures Scan([c] + rest) == Err(UnexpectedChar(c))
  {
  }

  lemma ScanUnknownBetween(p: string, q: string)
    requires IsName(p) && IsName(q)
    ensures Scan(p + " > " + q) == Err(UnexpectedChar('>'))
  {
    var t1 := ['>'] + (" " + q);
    var t2 := [' '] + t1;
    ScanReject('>', " " + q);
    assert Scan(t1) == Err(UnexpectedChar('>'));
    ScanSpace(' ', t1);
    assert Scan(t2) == Err(UnexpectedChar('>'));
    ScanName(p, t2);
    assert Scan(p + t2) == Err(UnexpectedChar('>'));
    assert t2 == " > " + q;
    assert p + t2 == p + " > " + q;
  }

  /** Characters the tokenizer does not know are rejected: a lone `>` is
      not an operator. */
  lemma UnknownCharacter(p: string, q: string)
    requires IsName(p) && IsName(q)
    ensures Tokenize(p + " > " + q) == Err(UnexpectedChar('>'))
  {
    PlainBetweenNames(p, q);
    ScanUnknownBetween(p, q);
  }
}
