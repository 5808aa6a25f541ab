/** How tokens are written: keywords in any mix of cases, signs, names, numbers and quoted values, with
    anything in between that is none of these; and that the tokeniser reads back whatever was written. */
module Spelling {
  import opened Lexer

  // ---------------------------------------------------------------- keywords

  /** The word of a keyword. */
  function WordOf(kind: Kind): string {
    match kind
    case Select => "SELECT"
    case Insert => "INSERT"
    case Update => "UPDATE"
    case Delete => "DELETE"
    case Create => "CREATE"
    case Drop => "DROP"
    case Table => "TABLE"
    case Into => "INTO"
    case From => "FROM"
    case Where => "WHERE"
    case Set => "SET"
    case Values => "VALUES"
    case And => "AND"
    case Use => "USE"
    case Begin => "BEGIN"
    case Commit => "COMMIT"
    case _ => ""
  }

  predicate IsKeyword(kind: Kind) {
    WordOf(kind) != ""
  }

  /** The same letter, capital or small, or the same other character. */
  predicate SameLetter(a: char, b: char) {
    || a == b
    || ('A' <= a <= 'Z' && b as int == a as int + 32)
    || ('A' <= b <= 'Z' && a as int == b as int + 32)
  }

  predicate SameLetters(a: string, b: string) {
    |a| == |b| && forall i :: 0 <= i < |a| ==> SameLetter(a[i], b[i])
  }

  /** A word that is no keyword, however it is spelled. */
  ghost predicate NoKeyword(w: string) {
    forall kind: Kind :: IsKeyword(kind) ==> !SameLetters(w, WordOf(kind))
  }

  /** The keyword table as one expression. */
  function KeywordOf(upper: string): Kind {
    if upper == "SELECT" then Select
    else if upper == "INSERT" then Insert
    else if upper == "UPDATE" then Update
    else if upper == "DELETE" then Delete
    else if upper == "CREATE" then Create
    else if upper == "DROP" then Drop
    else if upper == "TABLE" then Table
    else if upper == "INTO" then Into
    else if upper == "FROM" then From
    else if upper == "WHERE" then Where
    else if upper == "SET" then Set
    else if upper == "VALUES" then Values
    else if upper == "AND" then And
    else if upper == "USE" then Use
    else if upper == "BEGIN" then Begin
    else if upper == "COMMIT" then Commit
    else Ident
  }

  lemma KeywordTail(upper: string, k: nat)
    requires k <= |KEYWORDS|
    ensures KeywordFrom(upper, k) == if k == |KEYWORDS| then Ident
                                     else if upper == KEYWORDS[k].value then KEYWORDS[k].kind
                                     else KeywordFrom(upper, k + 1)
  {
  }

  lemma LaterKeywords(upper: string)
    requires upper !in {"SELECT", "INSERT", "UPDATE", "DELETE", "CREATE", "DROP", "TABLE", "INTO"}
    ensures KeywordFrom(upper, 8) == KeywordOf(upper)
  {
    hide KeywordFrom;
    KeywordTail(upper, 8); KeywordTail(upper, 9); KeywordTail(upper, 10); KeywordTail(upper, 11);
    KeywordTail(upper, 12); KeywordTail(upper, 13); KeywordTail(upper, 14); KeywordTail(upper, 15);
    KeywordTail(upper, 16);
  }

  lemma KeywordTable(upper: string)
    ensures KeywordFrom(upper, 0) == KeywordOf(upper)
  {
    hide KeywordFrom;
    KeywordTail(upper, 0); KeywordTail(upper, 1); KeywordTail(upper, 2); KeywordTail(upper, 3);
    KeywordTail(upper, 4); KeywordTail(upper, 5); KeywordTail(upper, 6); KeywordTail(upper, 7);
    if upper !in {"SELECT", "INSERT", "UPDATE", "DELETE", "CREATE", "DROP", "TABLE", "INTO"} {
      LaterKeywords(upper);
    }
  }

  lemma StatementWords()
    ensures KeywordOf("SELECT") == Select
    ensures KeywordOf("INSERT") == Insert
    ensures KeywordOf("UPDATE") == Update
    ensures KeywordOf("DELETE") == Delete
  {
  }

  lemma CreateWords()
    ensures KeywordOf("CREATE") == Create
    ensures KeywordOf("DROP") == Drop
    ensures KeywordOf("TABLE") == Table
    ensures KeywordOf("INTO") == Into
  {
  }

  lemma ClauseWords()
    ensures KeywordOf("FROM") == From
    ensures KeywordOf("WHERE") == Where
    ensures KeywordOf("SET") == Set
    ensures KeywordOf("VALUES") == Values
  {
  }

  lemma OtherWords()
    ensures KeywordOf("AND") == And
    ensures KeywordOf("USE") == Use
    ensures KeywordOf("BEGIN") == Begin
    ensures KeywordOf("COMMIT") == Commit
    ensures KeywordOf("DATABASE") == Ident
  {
  }

  lemma WordsFound(kind: Kind)
    requires IsKeyword(kind)
    ensures KeywordOf(WordOf(kind)) == kind
  {
    StatementWords();
    CreateWords();
    ClauseWords();
    OtherWords();
    hide KeywordOf;
  }

  lemma FoundWord(upper: string)
    ensures KeywordOf(upper) != Ident ==> IsKeyword(KeywordOf(upper)) && upper == WordOf(KeywordOf(upper))
  {
  }

  lemma IdentNoKeyword()
    ensures !IsKeyword(Ident)
  {
  }

  predicate Capital(w: string) {
    forall i :: 0 <= i < |w| ==> 'A' <= w[i] <= 'Z'
  }

  lemma WordsCapital(kind: Kind)
    ensures Capital(WordOf(kind)) && |WordOf(kind)| < 10
  {
  }

  /** Folding and comparing finds exactly the spellings of a word. */
  lemma UpperIs(w: string, word: string)
    requires Capital(word)
    ensures Upper(w) == word <==> SameLetters(w, word)
  {
    if SameLetters(w, word) {
      forall i | 0 <= i < |w| ensures Upper(w)[i] == word[i] {
        assert SameLetter(w[i], word[i]);
      }
    }
    if Upper(w) == word {
      forall i | 0 <= i < |w| ensures SameLetter(w[i], word[i]) {
        assert Upper(w)[i] == word[i];
      }
    }
  }

  /** classify_word tells each keyword from its spellings, and names from everything else. */
  lemma ClassifyExactly(w: string, kind: Kind)
    ensures Classify(w) == kind <==> if IsKeyword(kind) then SameLetters(w, WordOf(kind)) else kind == Ident && NoKeyword(w)
  {
    var upper := Upper(w);
    KeywordTable(upper);
    FoundWord(upper);
    IdentNoKeyword();
    hide KeywordOf, KeywordFrom, WordOf, SameLetters, Upper;
    if IsKeyword(kind) {
      WordsCapital(kind);
      UpperIs(w, WordOf(kind));
      WordsFound(kind);
    }
    forall k: Kind | IsKeyword(k) && SameLetters(w, WordOf(k)) ensures Classify(w) == k {
      WordsCapital(k);
      UpperIs(w, WordOf(k));
      WordsFound(k);
    }
    if IsKeyword(Classify(w)) {
      WordsCapital(Classify(w));
      UpperIs(w, WordOf(Classify(w)));
    }
  }

  /** Two spellings of a word are classified alike. */
  lemma CaseDoesNotMatter(v: string, w: string)
    requires SameLetters(v, w)
    ensures Classify(v) == Classify(w)
  {
    forall i | 0 <= i < |v| ensures Upper(v)[i] == Upper(w)[i] {
      assert SameLetter(v[i], w[i]);
    }
    assert Upper(v) == Upper(w);
  }

  /** The character classes of the C locale, letter by letter. */
  lemma CharacterClasses(c: char)
    ensures IsDigit(c) <==> c in "0123456789"
    ensures StartsWord(c) <==> c in "abcdefghijklmnopqrstuvwxyz" || c in "ABCDEFGHIJKLMNOPQRSTUVWXYZ" || c == '_'
    ensures InWord(c) <==> StartsWord(c) || IsDigit(c)
  {
    SmallLetters(c);
    CapitalLetters(c);
    LettersFrom("0123456789", '0', c);
  }

  lemma SmallLetters(c: char)
    ensures c in "abcdefghijklmnopqrstuvwxyz" <==> 'a' <= c <= 'z'
  {
    LettersFrom("abcdefghijklmnopqrstuvwxyz", 'a', c);
  }

  lemma CapitalLetters(c: char)
    ensures c in "ABCDEFGHIJKLMNOPQRSTUVWXYZ" <==> 'A' <= c <= 'Z'
  {
    LettersFrom("ABCDEFGHIJKLMNOPQRSTUVWXYZ", 'A', c);
  }

  lemma LettersFrom(letters: string, first: char, c: char)
    requires first as int + |letters| < 256 && forall i :: 0 <= i < |letters| ==> letters[i] as int == first as int + i
    ensures c in letters <==> first as int <= c as int < first as int + |letters|
  {
    if first as int <= c as int < first as int + |letters| {
      assert letters[c as int - first as int] == c;
    }
  }

  // ---------------------------------------------------------------- writing tokens

  /** The character of a sign. */
  function SignOf(kind: Kind): string {
    match kind
    case LParen => "("
    case RParen => ")"
    case Comma => ","
    case Star => "*"
    case Equals => "="
    case Semicolon => ";"
    case _ => ""
  }

  predicate WordShaped(w: string) {
    0 < |w| < MAX_TOKEN_LEN && StartsWord(w[0]) && forall i :: 0 <= i < |w| ==> InWord(w[i])
  }

  predicate NumberShaped(w: string) {
    0 < |w| < MAX_TOKEN_LEN && forall i :: 0 <= i < |w| ==> IsDigit(w[i])
  }

  predicate QuoteFree(v: string) {
    forall i :: 0 <= i < |v| ==> v[i] != '\'' && v[i] != END
  }

  /** The tokens that can be written. */
  ghost predicate Printable(t: Token) {
    match t.kind
    case Str => |t.value| < MAX_TOKEN_LEN && QuoteFree(t.value)
    case Number => NumberShaped(t.value)
    case Ident => WordShaped(t.value) && NoKeyword(t.value)
    case Eof | Unknown => false
    case _ => if SignOf(t.kind) != "" then t.value == SignOf(t.kind) else SameLetters(t.value, WordOf(t.kind))
  }

  ghost predicate AllPrintable(ts: seq<Token>) {
    forall i :: 0 <= i < |ts| ==> Printable(ts[i])
  }

  function Text(t: Token): string {
    if t.kind == Str then "'" + t.value + "'" else t.value
  }

  /** Characters that stand for nothing: no letter, digit, underscore, sign, quote or NUL. */
  predicate Ignored(c: char) {
    !InWord(c) && c !in ";(),*=" && c != '\'' && c != END
  }

  predicate AllIgnored(gap: string) {
    forall i :: 0 <= i < |gap| ==> Ignored(gap[i])
  }

  /** The text of some tokens, with `gaps[i]` before token `i` and the last gap at the end. */
  function Written(ts: seq<Token>, gaps: seq<string>): string
    requires |gaps| == |ts| + 1
  {
    if |ts| == 0 then gaps[0] else gaps[0] + Text(ts[0]) + Written(ts[1..], gaps[1..])
  }

  /** Whether `b` directly behind `a` would run into it. */
  predicate RunsInto(a: Token, b: Token) {
    && a.kind != Str && SignOf(a.kind) == ""
    && |Text(b)| > 0 && if a.kind == Number then IsDigit(Text(b)[0]) else InWord(Text(b)[0])
  }

  /** Gaps hold nothing that counts, and stand wherever two tokens would run into each other. */
  predicate Spaced(ts: seq<Token>, gaps: seq<string>) {
    && |gaps| == |ts| + 1
    && (forall i :: 0 <= i < |gaps| ==> AllIgnored(gaps[i]))
    && forall i :: 0 < i < |ts| && RunsInto(ts[i - 1], ts[i]) ==> |gaps[i]| > 0
  }

  // ---------------------------------------------------------------- and reading them back

  /** `rest` does not continue a run of characters that satisfy `p`. */
  predicate Stops(rest: string, p: char -> bool) {
    |rest| == 0 || !p(rest[0])
  }

  lemma {:induction false} SpanStops(w: string, rest: string, p: char -> bool, limit: nat)
    requires |w| <= limit && (forall i :: 0 <= i < |w| ==> p(w[i])) && Stops(rest, p)
    ensures Span(w + rest, p, limit) == |w|
  {
    if |w| > 0 {
      SpanStops(w[1..], rest, p, limit - 1);
      assert (w + rest)[1..] == w[1..] + rest;
    } else {
      assert w + rest == rest;
    }
  }

  lemma QuotedNext(v: string, rest: string)
    requires |v| < MAX_TOKEN_LEN && QuoteFree(v)
    ensures Next("'" + v + "'" + rest) == Make(|v| + 2, Token(Str, v))
  {
    var s := "'" + v + "'" + rest;
    assert s[1..] == v + ("'" + rest);
    SpanStops(v, "'" + rest, InQuotes, MAX_TOKEN_LEN - 1);
    assert s[1..1 + |v|] == v;
  }

  lemma NumberNext(v: string, rest: string)
    requires NumberShaped(v) && Stops(rest, IsDigit)
    ensures Next(v + rest) == Make(|v|, Token(Number, v))
  {
    SpanStops(v, rest, IsDigit, MAX_TOKEN_LEN - 1);
    assert (v + rest)[..|v|] == v && (v + rest)[0] == v[0];
  }

  lemma WordNext(v: string, rest: string)
    requires WordShaped(v) && Stops(rest, InWord)
    ensures Next(v + rest) == Make(|v|, Token(Classify(v), v))
  {
    SpanStops(v, rest, InWord, MAX_TOKEN_LEN - 1);
    hide Classify;
    assert (v + rest)[..|v|] == v && (v + rest)[0] == v[0];
  }

  lemma SignNext(kind: Kind, rest: string)
    requires SignOf(kind) != ""
    ensures Next(SignOf(kind) + rest) == Make(1, Token(kind, SignOf(kind)))
  {
    assert (SignOf(kind) + rest)[0] == SignOf(kind)[0];
    hide Classify, Span;
  }

  lemma SpelledShaped(w: string, word: string)
    requires SameLetters(w, word) && Capital(word) && 0 < |word| < MAX_TOKEN_LEN
    ensures WordShaped(w)
  {
    forall i | 0 <= i < |w| ensures IsAlpha(w[i]) {
      assert SameLetter(w[i], word[i]);
    }
  }

  /** What may follow a token. */
  predicate MayFollow(t: Token, rest: string) {
    if t.kind == Str || SignOf(t.kind) != "" then true
    else if t.kind == Number then Stops(rest, IsDigit)
    else Stops(rest, InWord)
  }

  /** The first round on a written token makes that token. */
  lemma NextWritten(t: Token, rest: string)
    requires Printable(t) && MayFollow(t, rest)
    ensures |Text(t)| > 0 && Text(t)[0] != END && Next(Text(t) + rest) == Make(|Text(t)|, t)
  {
    hide Next, Classify, Span, WordOf, SameLetters, NoKeyword;
    if t.kind == Str {
      QuotedNext(t.value, rest);
    } else if t.kind == Number {
      NumberNext(t.value, rest);
    } else if SignOf(t.kind) != "" {
      SignNext(t.kind, rest);
    } else {
      ClassifyExactly(t.value, t.kind);
      IdentNoKeyword();
      if t.kind != Ident {
        WordsCapital(t.kind);
        WordNotEmpty(t.kind);
        SpelledShaped(t.value, WordOf(t.kind));
      }
      WordNext(t.value, rest);
    }
  }

  lemma WordNotEmpty(kind: Kind)
    requires kind !in {Ident, Str, Number, Eof, Unknown} && SignOf(kind) == ""
    ensures IsKeyword(kind) && |WordOf(kind)| > 0
  {
  }

  lemma {:induction false} LexGap(gap: string, rest: string)
    requires AllIgnored(gap)
    ensures Lex(gap + rest) == Lex(rest)
  {
    if |gap| == 0 {
      assert gap + rest == rest;
    } else {
      var s := gap + rest;
      assert s[0] == gap[0] && Ignored(gap[0]);
      IgnoredNext(s);
      assert s[1..] == gap[1..] + rest;
      LexGap(gap[1..], rest);
    }
  }

  lemma IgnoredNext(s: string)
    requires |s| > 0 && Ignored(s[0])
    ensures Next(s) == Skip(1)
  {
    hide Classify, Span;
  }

  /** What comes after a token: a gap, the next token directly, or the end. */
  lemma FollowsWritten(ts: seq<Token>, gaps: seq<string>, tail: string)
    requires |ts| > 0 && Spaced(ts, gaps) && AllPrintable(ts) && (|tail| == 0 || tail[0] == END)
    ensures MayFollow(ts[0], Written(ts[1..], gaps[1..]) + tail)
  {
    var rest := Written(ts[1..], gaps[1..]) + tail;
    if |gaps[1]| > 0 {
      assert rest[0] == gaps[1][0] && Ignored(gaps[1][0]);
    } else if |ts| > 1 {
      assert !RunsInto(ts[0], ts[1]) && Printable(ts[1]);
      hide Printable;
      TextNotEmpty(ts[1]);
      assert rest[0] == Text(ts[1])[0];
    }
  }

  lemma TextNotEmpty(t: Token)
    requires Printable(t)
    ensures |Text(t)| > 0
  {
    NextWritten(t, "");
  }

  lemma TailSpaced(ts: seq<Token>, gaps: seq<string>)
    requires |ts| > 0 && Spaced(ts, gaps) && AllPrintable(ts)
    ensures Spaced(ts[1..], gaps[1..]) && AllPrintable(ts[1..]) && AllIgnored(gaps[0]) && Printable(ts[0])
  {
    hide Printable, AllIgnored;
  }

  lemma LexMakes(s: string)
    requires |s| > 0 && s[0] != END && Next(s).Make?
    ensures Lex(s) == [Next(s).token] + Lex(s[Next(s).size..])
  {
  }

  /** Whatever is written, with whatever in the gaps, is read back; a NUL ends it. */
  lemma {:induction false} LexWritten(ts: seq<Token>, gaps: seq<string>, tail: string)
    requires AllPrintable(ts) && Spaced(ts, gaps) && (|tail| == 0 || tail[0] == END)
    ensures Lex(Written(ts, gaps) + tail) == ts
  {
    hide Lex, Next, Printable, Text, Spaced, AllPrintable, AllIgnored, MayFollow;
    SpacedGap(ts, gaps);
    if |ts| == 0 {
      LexGap(gaps[0], tail);
      LexEmpty(tail);
    } else {
      var t, rest := ts[0], Written(ts[1..], gaps[1..]) + tail;
      TailSpaced(ts, gaps);
      FollowsWritten(ts, gaps, tail);
      NextWritten(t, rest);
      var s := Text(t) + rest;
      assert s[0] == Text(t)[0] && s[|Text(t)|..] == rest;
      LexMakes(s);
      LexWritten(ts[1..], gaps[1..], tail);
      assert Written(ts, gaps) + tail == gaps[0] + s;
      LexGap(gaps[0], s);
    }
  }

  lemma SpacedGap(ts: seq<Token>, gaps: seq<string>)
    requires Spaced(ts, gaps)
    ensures |gaps| == |ts| + 1 && AllIgnored(gaps[0])
  {
  }

  // ---------------------------------------------------------------- what is too long, or cannot be quoted

  lemma {:induction false} SpanHolds(s: string, p: char -> bool, limit: nat, i: nat)
    requires i < Span(s, p, limit)
    ensures p(s[i])
  {
    if i > 0 {
      SpanHolds(s[1..], p, limit - 1, i - 1);
    }
  }

  lemma {:induction false} SpanFull(s: string, p: char -> bool, limit: nat)
    requires limit <= |s| && forall i :: 0 <= i < limit ==> p(s[i])
    ensures Span(s, p, limit) == limit
  {
    if limit > 0 {
      SpanFull(s[1..], p, limit - 1);
    }
  }

  /** There is no way to write a quote, a NUL or more than 255 characters between quotes: these are
      exactly the values that do not come back. */
  lemma QuotedExactly(v: string)
    ensures Lex("'" + v + "'") == [Token(Str, v)] <==> QuoteFree(v) && |v| < MAX_TOKEN_LEN
  {
    hide Lex, Next, QuoteFree;
    var s := "'" + v + "'";
    if QuoteFree(v) && |v| < MAX_TOKEN_LEN {
      QuotedReads(v);
    }
    if Lex(s) == [Token(Str, v)] {
      QuotedFirst(s);
      LexFirst(s);
      assert Next(s).token.value == v;
    }
  }

  lemma LexFirst(s: string)
    requires |s| > 0 && s[0] != END && Next(s).Make?
    ensures |Lex(s)| > 0 && Lex(s)[0] == Next(s).token
  {
  }

  lemma QuotedReads(v: string)
    requires QuoteFree(v) && |v| < MAX_TOKEN_LEN
    ensures Lex("'" + v + "'") == [Token(Str, v)]
  {
    hide Lex, Next;
    var s := "'" + v + "'";
    QuotedNext(v, "");
    assert s + "" == s;
    LexMakes(s);
    Beyond(s, |v| + 2);
    LexEmpty([]);
  }

  lemma Beyond(s: string, n: nat)
    requires n == |s|
    ensures s[n..] == []
  {
  }

  /** What the first round makes of a text that starts with a quote. */
  lemma QuotedFirst(s: string)
    requires |s| > 0 && s[0] == '\''
    ensures Next(s).Make? && Next(s).token.kind == Str && QuoteFree(Next(s).token.value) && |Next(s).token.value| < MAX_TOKEN_LEN
  {
    hide Classify;
    var n := Span(s[1..], InQuotes, MAX_TOKEN_LEN - 1);
    var v := s[1..1 + n];
    forall i | 0 <= i < n ensures InQuotes(v[i]) {
      SpanHolds(s[1..], InQuotes, MAX_TOKEN_LEN - 1, i);
    }
    hide Span;
  }

  /** A longer quoted value is cut after 255 characters, and so are words and numbers. */
  lemma LongTokensCut(v: string, rest: string)
    requires |v| >= MAX_TOKEN_LEN - 1
    ensures QuoteFree(v) ==> Next("'" + v + rest).Make? && Next("'" + v + rest).token == Token(Str, v[..MAX_TOKEN_LEN - 1])
    ensures (forall i :: 0 <= i < |v| ==> IsDigit(v[i])) ==> Next(v + rest) == Make(MAX_TOKEN_LEN - 1, Token(Number, v[..MAX_TOKEN_LEN - 1]))
    ensures StartsWord(v[0]) && (forall i :: 0 <= i < |v| ==> InWord(v[i])) ==>
              Next(v + rest) == Make(MAX_TOKEN_LEN - 1, Token(Classify(v[..MAX_TOKEN_LEN - 1]), v[..MAX_TOKEN_LEN - 1]))
  {
    var n := MAX_TOKEN_LEN - 1;
    hide Classify;
    assert (v + rest)[..n] == v[..n] && (v + rest)[0] == v[0];
    if QuoteFree(v) {
      var s := "'" + v + rest;
      assert s[1..] == v + rest && s[1..1 + n] == v[..n];
      SpanFull(v + rest, InQuotes, n);
    }
    if forall i :: 0 <= i < |v| ==> IsDigit(v[i]) {
      SpanFull(v + rest, IsDigit, n);
    }
    if StartsWord(v[0]) && forall i :: 0 <= i < |v| ==> InWord(v[i]) {
      SpanFull(v + rest, InWord, n);
    }
  }
}
