/** Which token lists the parser accepts, what an incomplete clause does, and some texts. */
module SqlTexts {
  import opened Lexer
  import opened Spelling
  import opened Parser
  import opened SqlRoundTrip

  // ---------------------------------------------------------------- accepted lists

  /** The kinds of the tokens from `pos` on; past the end the last token stands for all. */
  ghost predicate KindsAt(ts: seq<Token>, pos: nat, kinds: seq<Kind>)
    requires |ts| > 0
  {
    forall j :: 0 <= j < |kinds| ==> At(ts, pos + j).kind == kinds[j]
  }

  lemma KindsTwo(ts: seq<Token>, pos: nat, a: Kind, b: Kind)
    requires |ts| > 0
    ensures KindsAt(ts, pos, [a, b]) <==> At(ts, pos).kind == a && At(ts, pos + 1).kind == b
    ensures KindsAt(ts, pos, [a]) <==> At(ts, pos).kind == a
  {
    assert [a, b][0] == a && [a, b][1] == b && [a][0] == a;
    assert KindsAt(ts, pos, [a, b]) ==> At(ts, pos + 0).kind == a && At(ts, pos + 1).kind == b;
    assert KindsAt(ts, pos, [a]) ==> At(ts, pos + 0).kind == a;
  }

  lemma KindsThree(ts: seq<Token>, pos: nat, a: Kind, b: Kind, c: Kind)
    requires |ts| > 0
    ensures KindsAt(ts, pos, [a, b, c]) <==> At(ts, pos).kind == a && At(ts, pos + 1).kind == b && At(ts, pos + 2).kind == c
  {
    assert [a, b, c][0] == a && [a, b, c][1] == b && [a, b, c][2] == c;
    assert KindsAt(ts, pos, [a, b, c]) ==> At(ts, pos + 0).kind == a && At(ts, pos + 1).kind == b && At(ts, pos + 2).kind == c;
  }

  lemma KindsFour(ts: seq<Token>, pos: nat, a: Kind, b: Kind, c: Kind, d: Kind)
    requires |ts| > 0
    ensures KindsAt(ts, pos, [a, b, c, d]) <==>
            At(ts, pos).kind == a && At(ts, pos + 1).kind == b && At(ts, pos + 2).kind == c && At(ts, pos + 3).kind == d
  {
    assert [a, b, c, d][0] == a && [a, b, c, d][1] == b && [a, b, c, d][2] == c && [a, b, c, d][3] == d;
    assert KindsAt(ts, pos, [a, b, c, d]) ==>
             At(ts, pos + 0).kind == a && At(ts, pos + 1).kind == b && At(ts, pos + 2).kind == c && At(ts, pos + 3).kind == d;
  }

  /** `n` names from `pos` on with a comma between them, and one behind them if `more`. */
  ghost predicate NameList(ts: seq<Token>, pos: nat, n: nat, more: bool)
    requires |ts| > 0
  {
    && (forall j :: 0 <= j < n ==> At(ts, pos + 2 * j).kind == Ident)
    && (forall j :: 0 <= j < n - 1 ==> At(ts, pos + 2 * j + 1).kind == Comma)
    && (more ==> n > 0 && At(ts, pos + 2 * n - 1).kind == Comma)
  }

  function NameListEnd(pos: nat, n: nat, more: bool): nat {
    if n == 0 then pos else if more then pos + 2 * n else pos + 2 * n - 1
  }

  /** SELECT names FROM table. */
  ghost predicate SelectsNames(ts: seq<Token>, pos: nat, n: nat, more: bool)
    requires |ts| > 0
  {
    NameList(ts, pos, n, more) && KindsAt(ts, NameListEnd(pos, n, more), [From, Ident])
  }

  /** What a statement must start with to be accepted; a list of columns may be empty or end in a comma,
      and whatever else follows is not looked at. */
  ghost predicate Accepted(ts: seq<Token>)
    requires |ts| > 0
  {
    match ts[0].kind
    case Begin | Commit => true
    case Select => KindsAt(ts, 1, [Star, From, Ident]) || exists n: nat, more: bool :: SelectsNames(ts, 1, n, more)
    case Insert => KindsAt(ts, 1, [Into, Ident, Values, LParen])
    case Update => KindsAt(ts, 1, [Ident, Set, Ident])
    case Delete => KindsAt(ts, 1, [From, Ident])
    case Create =>
      if At(ts, 1).kind == Ident && SameLetters(At(ts, 1).value, "DATABASE") then KindsAt(ts, 2, [Ident])
      else KindsAt(ts, 1, [Table, Ident, LParen])
    case Drop => KindsAt(ts, 1, [Table, Ident])
    case Use => KindsAt(ts, 1, [Ident])
    case _ => false
  }

  /** The column loop runs over a list of names. */
  lemma {:induction false} LoopRunsOver(ts: seq<Token>, pos: nat, cols: seq<string>) returns (n: nat, more: bool)
    requires |ts| > 0
    ensures NameList(ts, pos, n, more) && SelectLoop(ts, pos, cols).0 == NameListEnd(pos, n, more)
    decreases if pos < |ts| then |ts| - pos else 0
  {
    if !Is(ts, pos, Ident) {
      n, more := 0, false;
    } else if !Is(ts, pos + 1, Comma) {
      n, more := 1, false;
    } else {
      n, more := LoopRunsOver(ts, pos + 2, AddColumn(cols, Name(At(ts, pos))));
      LongerList(ts, pos, n, more);
      if n == 0 {
        n, more := 1, true;
      } else {
        n := n + 1;
      }
    }
  }

  lemma LongerList(ts: seq<Token>, pos: nat, n: nat, more: bool)
    requires |ts| > 0 && At(ts, pos).kind == Ident && At(ts, pos + 1).kind == Comma && NameList(ts, pos + 2, n, more)
    ensures n > 0 ==> NameList(ts, pos, n + 1, more)
    ensures n == 0 ==> NameList(ts, pos, 1, true)
  {
    forall j | 0 <= j < n + 1 ensures At(ts, pos + 2 * j).kind == Ident {
      assert j > 0 ==> pos + 2 * j == pos + 2 + 2 * (j - 1);
    }
    forall j | 0 <= j < n ensures At(ts, pos + 2 * j + 1).kind == Comma {
      assert j > 0 ==> pos + 2 * j + 1 == pos + 2 + 2 * (j - 1) + 1;
    }
  }

  /** And a list of names that is followed by FROM is all that it runs over. */
  lemma {:induction false} LoopStopsAt(ts: seq<Token>, pos: nat, cols: seq<string>, n: nat, more: bool)
    requires |ts| > 0 && NameList(ts, pos, n, more) && At(ts, NameListEnd(pos, n, more)).kind == From
    ensures SelectLoop(ts, pos, cols).0 == NameListEnd(pos, n, more)
    decreases n
  {
    if n > 0 {
      assert At(ts, pos + 2 * 0).kind == Ident;
      var more' := AddColumn(cols, Name(At(ts, pos)));
      if n > 1 {
        assert At(ts, pos + 2 * 0 + 1).kind == Comma;
        ShorterList(ts, pos, n, more);
        LoopStopsAt(ts, pos + 2, more', n - 1, more);
      } else if more {
        LoopStopsAt(ts, pos + 2, more', 0, false);
      }
    }
  }

  lemma ShorterList(ts: seq<Token>, pos: nat, n: nat, more: bool)
    requires |ts| > 0 && n > 1 && NameList(ts, pos, n, more)
    ensures NameList(ts, pos + 2, n - 1, more)
  {
    forall j | 0 <= j < n - 1 ensures At(ts, pos + 2 + 2 * j).kind == Ident {
      assert pos + 2 + 2 * j == pos + 2 * (j + 1);
    }
    forall j | 0 <= j < n - 2 ensures At(ts, pos + 2 + 2 * j + 1).kind == Comma {
      assert pos + 2 + 2 * j + 1 == pos + 2 * (j + 1) + 1;
    }
  }

  lemma WhereOk(ts: seq<Token>, pos: nat, i: Intent)
    requires |ts| > 0
    ensures WhereAt(ts, pos, i).ok
  {
    hide Copy;
  }

  lemma SelectOk(ts: seq<Token>)
    requires |ts| > 0
    ensures SelectAt(ts, 1, Blank()).ok
       <==> KindsAt(ts, 1, [Star, From, Ident]) || exists n: nat, more: bool :: SelectsNames(ts, 1, n, more)
  {
    hide KindsAt, NameList, SelectLoop, WhereAt, Copy;
    KindsThree(ts, 1, Star, From, Ident);
    var n, more := LoopRunsOver(ts, 1, []);
    var p := SelectLoop(ts, 1, []).0;
    KindsTwo(ts, p, From, Ident);
    KindsTwo(ts, 2, From, Ident);
    forall i, q {
      WhereOk(ts, q, i);
    }
    if KindsAt(ts, p, [From, Ident]) {
      assert SelectsNames(ts, 1, n, more);
    }
    forall n': nat, more': bool | SelectsNames(ts, 1, n', more') ensures NameListEnd(1, n', more') == p && !Is(ts, 1, Star) {
      KindsTwo(ts, NameListEnd(1, n', more'), From, Ident);
      LoopStopsAt(ts, 1, [], n', more');
      NotStar(ts, n', more');
    }
  }

  lemma NotStar(ts: seq<Token>, n: nat, more: bool)
    requires |ts| > 0 && NameList(ts, 1, n, more) && At(ts, NameListEnd(1, n, more)).kind == From
    ensures At(ts, 1).kind != Star
  {
    if n > 0 {
      assert At(ts, 1 + 2 * 0).kind == Ident;
    }
  }

  lemma UpdateOk(ts: seq<Token>)
    requires |ts| > 0
    ensures UpdateAt(ts, 1, Blank()).ok <==> KindsAt(ts, 1, [Ident, Set, Ident])
  {
    hide KindsAt, WhereAt, Copy;
    KindsThree(ts, 1, Ident, Set, Ident);
    forall i, p {
      WhereOk(ts, p, i);
    }
  }

  lemma DeleteOk(ts: seq<Token>)
    requires |ts| > 0
    ensures DeleteAt(ts, 1, Blank()).ok <==> KindsAt(ts, 1, [From, Ident])
  {
    hide KindsAt, WhereAt, Copy;
    KindsTwo(ts, 1, From, Ident);
    forall i, p {
      WhereOk(ts, p, i);
    }
  }

  lemma InsertOk(ts: seq<Token>)
    requires |ts| > 0
    ensures InsertHead(ts, 1, Blank()).ok <==> KindsAt(ts, 1, [Into, Ident, Values, LParen])
  {
    hide KindsAt, Copy;
    KindsFour(ts, 1, Into, Ident, Values, LParen);
  }

  lemma CreateOk(ts: seq<Token>)
    requires |ts| > 0
    ensures SaysDatabase(At(ts, 1)) <==> At(ts, 1).kind == Ident && SameLetters(At(ts, 1).value, "DATABASE")
    ensures CreateHead(ts, 1, Blank()).ok <==> KindsAt(ts, 1, [Table, Ident, LParen])
    ensures SaysDatabase(At(ts, 1)) ==> (CreateDbAt(ts, 1, Blank()).ok <==> KindsAt(ts, 2, [Ident]))
  {
    hide KindsAt, Copy, SameLetters, Upper;
    KindsThree(ts, 1, Table, Ident, LParen);
    KindsTwo(ts, 2, Ident, Ident);
    assert Capital("DATABASE");
    UpperIs(At(ts, 1).value, "DATABASE");
  }

  lemma NamedOk(ts: seq<Token>)
    requires |ts| > 0
    ensures DropAt(ts, 1, Blank()).ok <==> KindsAt(ts, 1, [Table, Ident])
    ensures UseAt(ts, 1, Blank()).ok <==> KindsAt(ts, 1, [Ident])
  {
    hide KindsAt, Copy;
    KindsTwo(ts, 1, Table, Ident);
    KindsTwo(ts, 1, Ident, Ident);
  }

  /** A token list on which the loops end is accepted exactly if it starts like a statement. */
  lemma AcceptedExactly(ts: seq<Token>)
    requires |ts| > 0 && Terminates(ts)
    ensures ParseTokens(ts).ok <==> Accepted(ts)
  {
    hide KindsAt, SelectsNames, SelectAt, InsertHead, UpdateAt, DeleteAt, CreateHead, CreateDbAt, DropAt, UseAt, Ends, ValueLoop, ColumnLoop,
         SameLetters, SaysDatabase;
    SelectOk(ts);
    InsertOk(ts);
    UpdateOk(ts);
    DeleteOk(ts);
    CreateOk(ts);
    NamedOk(ts);
  }

  // ---------------------------------------------------------------- incomplete clauses

  predicate ValueKind(kind: Kind) {
    kind == Number || kind == Str || kind == Ident
  }

  /** Where the value of an assignment or comparison would be, the column being at `pos`. */
  function ValuePlace(ts: seq<Token>, pos: nat): nat
    requires |ts| > 0
  {
    if At(ts, pos + 1).kind == Equals then pos + 2 else pos + 1
  }

  /** A WHERE clause restricts the statement exactly if WHERE, a column and a value follow each other,
      with or without a sign; anything less is passed over, and the statement concerns every row. */
  lemma WhereExactly(ts: seq<Token>, pos: nat, i: Intent)
    requires |ts| > 0
    ensures var w := WhereAt(ts, pos, i).intent.where;
            && (w.active <==> KindsAt(ts, pos, [Where, Ident]) && ValueKind(At(ts, ValuePlace(ts, pos + 1)).kind))
            && (w.active ==> w.column == Short(At(ts, pos + 1).value) && w.value == ShortValue(At(ts, ValuePlace(ts, pos + 1)).value))
            && WhereAt(ts, pos, i).intent == i.(where := w)
  {
    hide KindsAt, Copy, Short, ShortValue;
    KindsTwo(ts, pos, Where, Ident);
    CopyIsFirst(At(ts, pos + 1).value);
    CopyIsFirst(At(ts, ValuePlace(ts, pos + 1)).value);
  }

  /** An UPDATE without a value sets the empty one. */
  lemma UpdateExactly(ts: seq<Token>)
    requires |ts| > 0 && KindsAt(ts, 1, [Ident, Set, Ident])
    ensures var i := UpdateAt(ts, 1, Blank()).intent;
            && i.table == Short(At(ts, 1).value) && i.setColumn == Short(At(ts, 3).value)
            && i.setValue == if ValueKind(At(ts, ValuePlace(ts, 3)).kind) then ShortValue(At(ts, ValuePlace(ts, 3)).value) else ""
  {
    KindsThree(ts, 1, Ident, Set, Ident);
    hide KindsAt, Copy, Short, ShortValue, WhereAt;
    CopyIsFirst(At(ts, 1).value);
    CopyIsFirst(At(ts, 3).value);
    CopyIsFirst(At(ts, ValuePlace(ts, 3)).value);
    forall i, p {
      WhereExactly(ts, p, i);
    }
  }

  // ---------------------------------------------------------------- some texts

  /** The text from token `k` on, given the text behind it. */
  lemma WrittenFrom(ts: seq<Token>, gaps: seq<string>, k: nat, gap: string, word: string, rest: string, text: string)
    requires |gaps| == |ts| + 1 && k < |ts| && Written(ts[k + 1..], gaps[k + 1..]) == rest
    requires gaps[k] == gap && Text(ts[k]) == word && gap + word + rest == text
    ensures Written(ts[k..], gaps[k..]) == text
  {
    assert ts[k..][1..] == ts[k + 1..] && gaps[k..][1..] == gaps[k + 1..];
  }

  lemma WrittenEnds(ts: seq<Token>, gaps: seq<string>)
    requires |gaps| == |ts| + 1
    ensures Written(ts[|ts|..], gaps[|ts|..]) == gaps[|ts|]
    ensures Written(ts[0..], gaps[0..]) == Written(ts, gaps)
  {
    assert ts[0..] == ts && gaps[0..] == gaps;
  }

  lemma NamePrintable(w: string, upper: string)
    requires WordShaped(w) && Upper(w) == upper && KeywordOf(upper) == Ident
    ensures Printable(Token(Ident, w))
  {
    KeywordTable(upper);
    ClassifyExactly(w, Ident);
    IdentNoKeyword();
    hide KeywordOf, KeywordFrom;
  }

  function DeleteTokens(): seq<Token> {
    [Token(Delete, "delete"), Token(From, "From"), Token(Ident, "users"), Token(Where, "WHERE"), Token(Ident, "id"), Token(Equals, "="),
     Token(Number, "2"), Token(Semicolon, ";")]
  }

  function DeleteGaps(): seq<string> {
    ["", " ", " ", " ", " ", "", "", "", ""]
  }

  lemma DeletePrintable()
    ensures AllPrintable(DeleteTokens())
  {
    hide Printable;
    DeleteWords();
    UsersAndId();
    OtherPrintable();
  }

  lemma DeleteWords()
    ensures Printable(Token(Delete, "delete")) && Printable(Token(From, "From")) && Printable(Token(Where, "WHERE"))
  {
    hide NoKeyword, QuoteFree;
  }

  lemma UsersAndId()
    ensures Printable(Token(Ident, "users")) && Printable(Token(Ident, "id"))
  {
    assert Upper("users") == "USERS" && Upper("id") == "ID";
    hide Printable, Upper;
    NamePrintable("users", "USERS");
    NamePrintable("id", "ID");
  }

  lemma OtherPrintable()
    ensures Printable(Token(Equals, "=")) && Printable(Token(Number, "2")) && Printable(Token(Semicolon, ";")) && Printable(Token(LParen, "("))
  {
    hide NoKeyword, QuoteFree, SameLetters;
  }

  lemma SpaceIgnored()
    ensures AllIgnored("") && AllIgnored(" ")
  {
  }

  /** Gaps of at most one space each. */
  lemma SpacesSpaced(ts: seq<Token>, gaps: seq<string>)
    requires |gaps| == |ts| + 1 && forall i :: 0 <= i < |gaps| ==> gaps[i] == "" || gaps[i] == " "
    requires forall i :: 0 < i < |ts| && gaps[i] == "" ==> !RunsInto(ts[i - 1], ts[i])
    ensures Spaced(ts, gaps)
  {
    SpaceIgnored();
    hide AllIgnored, RunsInto;
  }

  lemma DeleteSpaced()
    ensures Spaced(DeleteTokens(), DeleteGaps())
  {
    assert !RunsInto(Token(Ident, "id"), Token(Equals, "=")) && !RunsInto(Token(Equals, "="), Token(Number, "2"));
    assert !RunsInto(Token(Number, "2"), Token(Semicolon, ";"));
    hide RunsInto, Spaced;
    SpacesSpaced(DeleteTokens(), DeleteGaps());
  }

  /** The words and gaps of the text. */
  lemma DeleteParts()
    ensures |DeleteTokens()| == 8 && |DeleteGaps()| == 9 && DeleteGaps()[8] == ""
    ensures DeleteGaps()[0] == "" && Text(DeleteTokens()[0]) == "delete"
    ensures DeleteGaps()[1] == " " && Text(DeleteTokens()[1]) == "From"
    ensures DeleteGaps()[2] == " " && Text(DeleteTokens()[2]) == "users"
    ensures DeleteGaps()[3] == " " && Text(DeleteTokens()[3]) == "WHERE"
    ensures DeleteGaps()[4] == " " && Text(DeleteTokens()[4]) == "id"
    ensures DeleteGaps()[5] == "" && Text(DeleteTokens()[5]) == "="
    ensures DeleteGaps()[6] == "" && Text(DeleteTokens()[6]) == "2"
    ensures DeleteGaps()[7] == "" && Text(DeleteTokens()[7]) == ";"
  {
  }

  lemma DeleteJoin0()
    ensures "" + ";" + "" == ";"
  {
  }

  lemma DeleteJoin1()
    ensures "" + "2" + ";" == "2;"
  {
  }

  lemma DeleteJoin2()
    ensures "" + "=" + "2;" == "=2;"
  {
  }

  lemma DeleteJoin3()
    ensures " " + "id" + "=2;" == " id=2;"
  {
  }

  lemma DeleteJoin4()
    ensures " " + "WHERE" + " id=2;" == " WHERE id=2;"
  {
  }

  lemma DeleteJoin5()
    ensures " " + "users" + " WHERE id=2;" == " users WHERE id=2;"
  {
  }

  lemma DeleteJoin6()
    ensures " " + "From" + " users WHERE id=2;" == " From users WHERE id=2;"
  {
  }

  lemma DeleteJoin7()
    ensures "" + "delete" + " From users WHERE id=2;" == "delete From users WHERE id=2;"
  {
  }

  lemma DeleteText()
    ensures Written(DeleteTokens(), DeleteGaps()) == "delete From users WHERE id=2;"
  {
    hide *;
    var ts, gaps := DeleteTokens(), DeleteGaps();
    DeleteParts();
    WrittenEnds(ts, gaps);
    DeleteJoin0();
    WrittenFrom(ts, gaps, 7, "", ";", "", ";");
    DeleteJoin1();
    WrittenFrom(ts, gaps, 6, "", "2", ";", "2;");
    DeleteJoin2();
    WrittenFrom(ts, gaps, 5, "", "=", "2;", "=2;");
    DeleteJoin3();
    WrittenFrom(ts, gaps, 4, " ", "id", "=2;", " id=2;");
    DeleteJoin4();
    WrittenFrom(ts, gaps, 3, " ", "WHERE", " id=2;", " WHERE id=2;");
    DeleteJoin5();
    WrittenFrom(ts, gaps, 2, " ", "users", " WHERE id=2;", " users WHERE id=2;");
    DeleteJoin6();
    WrittenFrom(ts, gaps, 1, " ", "From", " users WHERE id=2;", " From users WHERE id=2;");
    DeleteJoin7();
    WrittenFrom(ts, gaps, 0, "", "delete", " From users WHERE id=2;", "delete From users WHERE id=2;");
  }

  function DeleteIntent(): Intent {
    Blank().(statement := DeleteRows, table := "users", where := WhereClause(true, "id", "2"))
  }

  lemma DeleteSays()
    ensures Says(First(DeleteTokens() + [Token(Eof, "")], MAX_TOKENS), DeleteIntent(), true)
  {
  }

  /** A text with small letters, a number and a semicolon, and no space around the sign. */
  lemma DeleteReads()
    ensures ReadsBack(Tokens("delete From users WHERE id=2;"), DeleteIntent())
  {
    hide Tokens, Written, Says, ReadsBack, AllPrintable, Spaced;
    DeletePrintable();
    DeleteSpaced();
    DeleteText();
    DeleteSays();
    RoundTrip(DeleteIntent(), true, DeleteTokens(), DeleteGaps(), "");
    ClipKeeps(DeleteIntent());
    assert "delete From users WHERE id=2;" + "" == "delete From users WHERE id=2;";
  }

  // ---------------------------------------------------------------- texts on which the parser hangs

  function HangingInsert(): seq<Token> {
    [Token(Insert, "INSERT"), Token(Into, "INTO"), Token(Ident, "t"), Token(Values, "VALUES"), Token(LParen, "("), Token(Select, "SELECT")]
  }

  function HangingCreate(): seq<Token> {
    [Token(Create, "CREATE"), Token(Table, "TABLE"), Token(Ident, "t"), Token(LParen, "("), Token(Select, "SELECT")]
  }

  function InsertGaps(): seq<string> { ["", " ", " ", " ", " ", " ", ""] }

  function CreateGaps(): seq<string> { ["", " ", " ", " ", " ", ""] }

  lemma HangingPrintable()
    ensures AllPrintable(HangingInsert()) && AllPrintable(HangingCreate())
  {
    hide Printable;
    HangingWords();
    TableT();
    OtherPrintable();
  }

  lemma HangingWords()
    ensures Printable(Token(Insert, "INSERT")) && Printable(Token(Into, "INTO")) && Printable(Token(Values, "VALUES"))
    ensures Printable(Token(Create, "CREATE")) && Printable(Token(Table, "TABLE")) && Printable(Token(Select, "SELECT"))
  {
    hide NoKeyword, QuoteFree;
  }

  lemma TableT()
    ensures Printable(Token(Ident, "t"))
  {
    assert Upper("t") == "T";
    hide Printable, Upper;
    NamePrintable("t", "T");
  }

  lemma HangingSpaced()
    ensures Spaced(HangingInsert(), InsertGaps()) && Spaced(HangingCreate(), CreateGaps())
  {
    hide RunsInto, Spaced;
    SpacesSpaced(HangingInsert(), InsertGaps());
    SpacesSpaced(HangingCreate(), CreateGaps());
  }

  /** The words and gaps of the text. */
  lemma InsertParts()
    ensures |HangingInsert()| == 6 && |InsertGaps()| == 7 && InsertGaps()[6] == ""
    ensures InsertGaps()[0] == "" && Text(HangingInsert()[0]) == "INSERT"
    ensures InsertGaps()[1] == " " && Text(HangingInsert()[1]) == "INTO"
    ensures InsertGaps()[2] == " " && Text(HangingInsert()[2]) == "t"
    ensures InsertGaps()[3] == " " && Text(HangingInsert()[3]) == "VALUES"
    ensures InsertGaps()[4] == " " && Text(HangingInsert()[4]) == "("
    ensures InsertGaps()[5] == " " && Text(HangingInsert()[5]) == "SELECT"
  {
  }

  lemma InsertJoin0()
    ensures " " + "SELECT" + "" == " SELECT"
  {
  }

  lemma InsertJoin1()
    ensures " " + "(" + " SELECT" == " ( SELECT"
  {
  }

  lemma InsertJoin2()
    ensures " " + "VALUES" + " ( SELECT" == " VALUES ( SELECT"
  {
  }

  lemma InsertJoin3()
    ensures " " + "t" + " VALUES ( SELECT" == " t VALUES ( SELECT"
  {
  }

  lemma InsertJoin4()
    ensures " " + "INTO" + " t VALUES ( SELECT" == " INTO t VALUES ( SELECT"
  {
  }

  lemma InsertJoin5()
    ensures "" + "INSERT" + " INTO t VALUES ( SELECT" == "INSERT INTO t VALUES ( SELECT"
  {
  }

  lemma InsertText()
    ensures Written(HangingInsert(), InsertGaps()) == "INSERT INTO t VALUES ( SELECT"
  {
    hide *;
    var ts, gaps := HangingInsert(), InsertGaps();
    InsertParts();
    WrittenEnds(ts, gaps);
    InsertJoin0();
    WrittenFrom(ts, gaps, 5, " ", "SELECT", "", " SELECT");
    InsertJoin1();
    WrittenFrom(ts, gaps, 4, " ", "(", " SELECT", " ( SELECT");
    InsertJoin2();
    WrittenFrom(ts, gaps, 3, " ", "VALUES", " ( SELECT", " VALUES ( SELECT");
    InsertJoin3();
    WrittenFrom(ts, gaps, 2, " ", "t", " VALUES ( SELECT", " t VALUES ( SELECT");
    InsertJoin4();
    WrittenFrom(ts, gaps, 1, " ", "INTO", " t VALUES ( SELECT", " INTO t VALUES ( SELECT");
    InsertJoin5();
    WrittenFrom(ts, gaps, 0, "", "INSERT", " INTO t VALUES ( SELECT", "INSERT INTO t VALUES ( SELECT");
  }

  /** The words and gaps of the text. */
  lemma CreateParts()
    ensures |HangingCreate()| == 5 && |CreateGaps()| == 6 && CreateGaps()[5] == ""
    ensures CreateGaps()[0] == "" && Text(HangingCreate()[0]) == "CREATE"
    ensures CreateGaps()[1] == " " && Text(HangingCreate()[1]) == "TABLE"
    ensures CreateGaps()[2] == " " && Text(HangingCreate()[2]) == "t"
    ensures CreateGaps()[3] == " " && Text(HangingCreate()[3]) == "("
    ensures CreateGaps()[4] == " " && Text(HangingCreate()[4]) == "SELECT"
  {
  }

  lemma CreateJoin0()
    ensures " " + "SELECT" + "" == " SELECT"
  {
  }

  lemma CreateJoin1()
    ensures " " + "(" + " SELECT" == " ( SELECT"
  {
  }

  lemma CreateJoin2()
    ensures " " + "t" + " ( SELECT" == " t ( SELECT"
  {
  }

  lemma CreateJoin3()
    ensures " " + "TABLE" + " t ( SELECT" == " TABLE t ( SELECT"
  {
  }

  lemma CreateJoin4()
    ensures "" + "CREATE" + " TABLE t ( SELECT" == "CREATE TABLE t ( SELECT"
  {
  }

  lemma CreateText()
    ensures Written(HangingCreate(), CreateGaps()) == "CREATE TABLE t ( SELECT"
  {
    hide *;
    var ts, gaps := HangingCreate(), CreateGaps();
    CreateParts();
    WrittenEnds(ts, gaps);
    CreateJoin0();
    WrittenFrom(ts, gaps, 4, " ", "SELECT", "", " SELECT");
    CreateJoin1();
    WrittenFrom(ts, gaps, 3, " ", "(", " SELECT", " ( SELECT");
    CreateJoin2();
    WrittenFrom(ts, gaps, 2, " ", "t", " ( SELECT", " t ( SELECT");
    CreateJoin3();
    WrittenFrom(ts, gaps, 1, " ", "TABLE", " t ( SELECT", " TABLE t ( SELECT");
    CreateJoin4();
    WrittenFrom(ts, gaps, 0, "", "CREATE", " TABLE t ( SELECT", "CREATE TABLE t ( SELECT");
  }

  lemma TokensOfWritten(ts: seq<Token>, gaps: seq<string>)
    requires AllPrintable(ts) && Spaced(ts, gaps) && |ts| < MAX_TOKENS
    ensures Tokens(Written(ts, gaps)) == ts + [Token(Eof, "")]
  {
    LexWritten(ts, gaps, "");
    assert Written(ts, gaps) + "" == Written(ts, gaps);
    hide Lex, Written, AllPrintable, Spaced;
  }

  /** A keyword where a value is expected is never consumed, so the loop of INSERT stays where it is. */
  lemma InsertHangs()
    ensures !Terminates(Tokens("INSERT INTO t VALUES ( SELECT"))
  {
    hide Tokens, Written, AllPrintable, Spaced, Terminates;
    HangingPrintable();
    HangingSpaced();
    InsertText();
    TokensOfWritten(HangingInsert(), InsertGaps());
    StuckInsert(HangingInsert() + [Token(Eof, "")]);
  }

  /** And so does that of CREATE TABLE, where a column is expected. */
  lemma CreateHangs()
    ensures !Terminates(Tokens("CREATE TABLE t ( SELECT"))
  {
    hide Tokens, Written, AllPrintable, Spaced, Terminates;
    HangingPrintable();
    HangingSpaced();
    CreateText();
    TokensOfWritten(HangingCreate(), CreateGaps());
    StuckCreate(HangingCreate() + [Token(Eof, "")]);
  }

  lemma StuckInsert(ts: seq<Token>)
    requires |ts| > 5 && ts[0].kind == Insert && ts[1].kind == Into && ts[2] == Token(Ident, "t") && ts[3].kind == Values
    requires ts[4].kind == LParen && ts[5].kind == Select
    ensures !Terminates(ts)
  {
    InsertHeadEval(ts, "t");
    hide InsertHead;
  }

  lemma StuckCreate(ts: seq<Token>)
    requires |ts| > 4 && ts[0].kind == Create && ts[1].kind == Table && ts[2] == Token(Ident, "t") && ts[3].kind == LParen
    requires ts[4].kind == Select
    ensures !Terminates(ts)
  {
    CreateHeadEval(ts, "t");
    hide CreateHead;
  }
}
