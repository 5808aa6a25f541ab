/** The tokeniser: what it makes of any text. */
module Lexer {

  const MAX_TOKEN_LEN: nat := 256
  const MAX_TOKENS: nat := 128

  /** The character that ends a C string. */
  const END := '\0'

  datatype Kind =
    | Ident | Str | Number
    | Select | Insert | Update | Delete | Create | Drop | Table | Into | From | Where | Set | Values | And
    | LParen | RParen | Comma | Star | Equals | Semicolon | Eof
    | Use | Begin | Commit | Unknown

  datatype Token = Token(kind: Kind, value: string)

  const KEYWORDS: seq<Token> := [
    Token(Select, "SELECT"), Token(Insert, "INSERT"), Token(Update, "UPDATE"), Token(Delete, "DELETE"),
    Token(Create, "CREATE"), Token(Drop, "DROP"), Token(Table, "TABLE"), Token(Into, "INTO"),
    Token(From, "FROM"), Token(Where, "WHERE"), Token(Set, "SET"), Token(Values, "VALUES"),
    Token(And, "AND"), Token(Use, "USE"), Token(Begin, "BEGIN"), Token(Commit, "COMMIT")
  ]

  // ---------------------------------------------------------------- characters, in the C locale

  predicate IsSpace(c: char) { c == ' ' || '\t' <= c <= '\r' }

  predicate IsDigit(c: char) { '0' <= c <= '9' }

  predicate IsAlpha(c: char) { 'a' <= c <= 'z' || 'A' <= c <= 'Z' }

  predicate StartsWord(c: char) { IsAlpha(c) || c == '_' }

  predicate InWord(c: char) { IsAlpha(c) || IsDigit(c) || c == '_' }

  predicate InQuotes(c: char) { c != '\'' && c != END }

  function ToUpper(c: char): char {
    if 'a' <= c <= 'z' then ((c as int) - 32) as char else c
  }

  function Upper(s: string): (u: string)
    ensures |u| == |s|
  {
    seq(|s|, i requires 0 <= i < |s| => ToUpper(s[i]))
  }

  datatype Option<T> = None | Some(value: T)

  /** The tokens of a single character. */
  function Punctuation(c: char): Option<Kind> {
    if c == ';' then Some(Semicolon)
    else if c == '(' then Some(LParen)
    else if c == ')' then Some(RParen)
    else if c == ',' then Some(Comma)
    else if c == '*' then Some(Star)
    else if c == '=' then Some(Equals)
    else None
  }

  // ---------------------------------------------------------------- the specification

  function KeywordFrom(upper: string, k: nat): Kind
    requires k <= |KEYWORDS|
    decreases |KEYWORDS| - k
  {
    if k == |KEYWORDS| then Ident
    else if upper == KEYWORDS[k].value then KEYWORDS[k].kind
    else KeywordFrom(upper, k + 1)
  }

  /** classify_word. */
  function Classify(word: string): Kind {
    KeywordFrom(Upper(word), 0)
  }

  /** How many characters at the start of `s` satisfy `p`, but no more than `limit`. */
  function Span(s: string, p: char -> bool, limit: nat): (n: nat)
    ensures n <= |s| && n <= limit
  {
    if |s| > 0 && limit > 0 && p(s[0]) then 1 + Span(s[1..], p, limit - 1) else 0
  }

  /** One round of the tokeniser: how many characters it consumes and the token it makes, if any. */
  datatype Round = Skip(size: nat) | Make(size: nat, token: Token)

  function Next(s: string): (r: Round)
    requires |s| > 0
    ensures 1 <= r.size <= |s|
    ensures r.Make? ==> |r.token.value| < MAX_TOKEN_LEN
  {
    var c := s[0];
    if IsSpace(c) then Skip(1)
    else if Punctuation(c).Some? then Make(1, Token(Punctuation(c).value, [c]))
    else if c == '\'' then
      var n := Span(s[1..], InQuotes, MAX_TOKEN_LEN - 1);
      Make(if 1 + n < |s| && s[1 + n] == '\'' then n + 2 else n + 1, Token(Str, s[1..1 + n]))
    else if IsDigit(c) then
      var n := Span(s, IsDigit, MAX_TOKEN_LEN - 1);
      Make(n, Token(Number, s[..n]))
    else if StartsWord(c) then
      var n := Span(s, InWord, MAX_TOKEN_LEN - 1);
      Make(n, Token(Classify(s[..n]), s[..n]))
    else Skip(1)
  }

  /** The tokens of a text up to its end or its first NUL, without the final one and however many
      they are. */
  function Lex(s: string): seq<Token>
    decreases |s|
  {
    if |s| == 0 || s[0] == END then []
    else
      match Next(s)
      case Skip(n) => Lex(s[n..])
      case Make(n, token) => [token] + Lex(s[n..])
  }

  /** push drops every token beyond the 128th, the end marker included. */
  function Cap(ts: seq<Token>): seq<Token> {
    if |ts| <= MAX_TOKENS then ts else ts[..MAX_TOKENS]
  }

  /** lexer_tokenize. */
  function Tokens(s: string): (ts: seq<Token>)
    ensures 0 < |ts| <= MAX_TOKENS
  {
    Cap(Lex(s) + [Token(Eof, "")])
  }

  // ---------------------------------------------------------------- the code

  /** push. */
  method Push(tokens: array<Token>, count: nat, kind: Kind, value: string) returns (count': nat)
    requires tokens.Length == MAX_TOKENS && count <= MAX_TOKENS && |value| < MAX_TOKEN_LEN
    modifies tokens
    ensures count' <= MAX_TOKENS && tokens[..count'] == Cap(old(tokens[..count]) + [Token(kind, value)])
  {
    if count >= MAX_TOKENS {
      assert (tokens[..count] + [Token(kind, value)])[..MAX_TOKENS] == tokens[..count];
      return count;
    }
    tokens[count] := Token(kind, value);
    return count + 1;
  }

  /** classify_word. */
  method ClassifyWord(word: string) returns (kind: Kind)
    ensures kind == Classify(word)
  {
    var upper := Upper(word);
    var k := 0;
    while k < |KEYWORDS|
      invariant 0 <= k <= |KEYWORDS| && KeywordFrom(upper, k) == Classify(word)
    {
      if upper == KEYWORDS[k].value {
        return KEYWORDS[k].kind;
      }
      k := k + 1;
    }
    return Ident;
  }

  /** The character loops inside lexer_tokenize. */
  method Advance(s: string, from: nat, p: char -> bool) returns (to: nat)
    requires from <= |s|
    ensures to == from + Span(s[from..], p, MAX_TOKEN_LEN - 1)
  {
    to := from;
    while to < |s| && p(s[to]) && to - from < MAX_TOKEN_LEN - 1
      invariant from <= to <= |s| && to - from <= MAX_TOKEN_LEN - 1
      invariant Span(s[from..], p, MAX_TOKEN_LEN - 1) == to - from + Span(s[to..], p, MAX_TOKEN_LEN - 1 - (to - from))
    {
      assert s[to..][1..] == s[to + 1..];
      to := to + 1;
    }
  }

  lemma CapMore(a: seq<Token>, b: seq<Token>)
    ensures Cap(Cap(a) + b) == Cap(a + b)
  {
  }

  /** The body of lexer_tokenize's loop. */
  method ScanRound(s: string, p: nat) returns (r: Round)
    requires p < |s|
    ensures r == Next(s[p..])
  {
    ghost var rest := s[p..];
    var c := s[p];
    if IsSpace(c) {
      return Skip(1);
    }
    if Punctuation(c).Some? {
      return Make(1, Token(Punctuation(c).value, [c]));
    }
    if c == '\'' {
      assert rest[1..] == s[p + 1..];
      var e := Advance(s, p + 1, InQuotes);
      assert s[p + 1..e] == rest[1..e - p];
      return Make(if e < |s| && s[e] == '\'' then e + 1 - p else e - p, Token(Str, s[p + 1..e]));
    }
    if IsDigit(c) {
      var e := Advance(s, p, IsDigit);
      assert s[p..e] == rest[..e - p];
      return Make(e - p, Token(Number, s[p..e]));
    }
    if StartsWord(c) {
      var e := Advance(s, p, InWord);
      assert s[p..e] == rest[..e - p];
      var kind := ClassifyWord(s[p..e]);
      return Make(e - p, Token(kind, s[p..e]));
    }
    return Skip(1);
  }

  lemma LexStep(s: string, p: nat)
    requires p < |s| && s[p] != END
    ensures var r := Next(s[p..]);
            && p + r.size <= |s|
            && Lex(s[p..]) == if r.Make? then [r.token] + Lex(s[p + r.size..]) else Lex(s[p + r.size..])
  {
    var r := Next(s[p..]);
    assert s[p..][r.size..] == s[p + r.size..];
  }

  /** lexer_tokenize. */
  method Tokenize(s: string) returns (list: seq<Token>)
    ensures list == Tokens(s)
  {
    hide Next, Lex, Cap;
    var tokens: array<Token> := new Token[MAX_TOKENS](_ => Token(Unknown, ""));
    var count := 0;
    var p := 0;
    ghost var done: seq<Token> := [];
    CapEmpty();
    assert s[0..] == s;
    while p < |s| && s[p] != END
      invariant 0 <= p <= |s| && 0 <= count <= MAX_TOKENS && tokens[..count] == Cap(done) && done + Lex(s[p..]) == Lex(s)
    {
      LexStep(s, p);
      var r := ScanRound(s, p);
      p := p + r.size;
      match r {
        case Skip(_) =>
        case Make(_, token) =>
          count := Push(tokens, count, token.kind, token.value);
          CapMore(done, [token]);
          assert done + ([token] + Lex(s[p..])) == (done + [token]) + Lex(s[p..]);
          done := done + [token];
      }
    }
    LexEmpty(s[p..]);
    assert done == Lex(s);
    count := Push(tokens, count, Eof, "");
    CapMore(done, [Token(Eof, "")]);
    list := tokens[..count];
  }

  lemma CapEmpty()
    ensures Cap([]) == []
  {
  }

  lemma LexEmpty(s: string)
    ensures |s| == 0 || s[0] == END ==> Lex(s) == []
  {
  }
}
