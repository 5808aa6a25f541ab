/** The parser as the code has it: a position in the token list and an intent that is filled in. */
module ParserCode {
  import opened Lexer
  import opened Parser

  class TokenParser {
    const list: seq<Token>
    var pos: nat
    var intent: Intent

    constructor (list: seq<Token>)
      ensures this.list == list && pos == 0 && intent == Blank()
    {
      this.list := list;
      pos := 0;
      intent := Blank();
    }

    /** The parser stands where the specification says. */
    predicate Reached(o: Outcome, ok: bool)
      reads this
    {
      o == Outcome(ok, pos, intent)
    }

    /** current. */
    method Current() returns (t: Token)
      requires |list| > 0
      ensures t == At(list, pos)
    {
      if pos < |list| {
        return list[pos];
      }
      return list[|list| - 1];
    }

    /** advance. */
    method Advance() returns (t: Token)
      requires |list| > 0
      modifies `pos
      ensures t == At(list, old(pos)) && pos == Past(list, old(pos))
    {
      t := Current();
      if t.kind != Eof {
        pos := pos + 1;
      }
    }

    /** check. */
    method Check(kind: Kind) returns (b: bool)
      requires |list| > 0
      ensures b == Is(list, pos, kind)
    {
      var t := Current();
      return t.kind == kind;
    }

    /** expect. */
    method Expect(kind: Kind) returns (t: Option<Token>)
      requires |list| > 0
      modifies `pos
      ensures pos == Over(list, old(pos), kind)
      ensures t == if Is(list, old(pos), kind) then Some(At(list, old(pos))) else None
    {
      var there := Check(kind);
      if !there {
        return None;
      }
      var token := Advance();
      return Some(token);
    }

    /** parse_where. */
    method ParseWhere()
      requires |list| > 0
      modifies `pos, `intent
      ensures Reached(WhereAt(list, old(pos), old(intent)), true)
    {
      intent := intent.(where := intent.where.(active := false));
      var there := Check(Where);
      if !there {
        return;
      }
      var keyword := Advance();
      var column := Expect(Ident);
      if column.None? {
        return;
      }
      intent := intent.(where := intent.where.(column := Name(column.value)));
      var sign := Expect(Equals);
      var value := Current();
      if value.kind == Number || value.kind == Str || value.kind == Ident {
        intent := intent.(where := intent.where.(value := ValueOf(value)));
        value := Advance();
        intent := intent.(where := intent.where.(active := true));
      }
    }

    /** The column loop of parse_select. */
    method ParseSelectColumns()
      requires |list| > 0
      modifies `pos, `intent
      ensures var loop := SelectLoop(list, old(pos), old(intent).selectCols);
              pos == loop.0 && intent == old(intent).(selectCols := loop.1)
    {
      var more := Check(Ident);
      while more
        invariant more ==> Is(list, pos, Ident)
        invariant intent == old(intent).(selectCols := intent.selectCols)
        invariant SelectLoop(list, old(pos), old(intent).selectCols)
               == if more then SelectLoop(list, pos, intent.selectCols) else (pos, intent.selectCols)
        decreases more, if pos < |list| then |list| - pos else 0
      {
        var column := Advance();
        if |intent.selectCols| < MAX_COLUMNS {
          intent := intent.(selectCols := intent.selectCols + [Name(column)]);
        }
        var comma := Check(Comma);
        if !comma {
          break;
        }
        column := Advance();
        more := Check(Ident);
      }
    }

    /** parse_select. */
    method ParseSelect() returns (ok: bool)
      requires |list| > 0
      modifies `pos, `intent
      ensures Reached(SelectAt(list, old(pos), old(intent)), ok)
    {
      intent := intent.(statement := SelectRows);
      var star := Check(Star);
      if star {
        var t := Advance();
        intent := intent.(selectAll := true);
      } else {
        intent := intent.(selectAll := false);
        ParseSelectColumns();
      }
      var from := Expect(From);
      if from.None? {
        return false;
      }
      var table := Expect(Ident);
      if table.None? {
        return false;
      }
      intent := intent.(table := Name(table.value));
      ParseWhere();
      return true;
    }

    /** The value loop of parse_insert, on lists on which it ends. */
    method ParseValues()
      requires |list| > 0 && Ends(list, pos, InValues)
      modifies `pos, `intent
      ensures var loop := ValueLoop(list, old(pos), old(intent).values);
              pos == loop.0 && intent == old(intent).(values := loop.1)
    {
      hide Ends, ValueLoop, Copy;
      var t := Current();
      while t.kind != RParen && t.kind != Eof
        invariant t == At(list, pos) && Ends(list, pos, InValues)
        invariant intent == old(intent).(values := intent.values)
        invariant ValueLoop(list, old(pos), old(intent).values) == ValueLoop(list, pos, intent.values)
        decreases if pos < |list| then |list| - pos else 0
      {
        ValueLoopStep(list, pos, intent.values);
        if t.kind == Number || t.kind == Str || t.kind == Ident {
          if |intent.values| < MAX_VALUES {
            intent := intent.(values := intent.values + [ValueOf(t)]);
          }
          t := Advance();
        }
        var comma := Check(Comma);
        if comma {
          t := Advance();
        }
        t := Current();
      }
      ValueLoopStep(list, pos, intent.values);
    }

    /** parse_insert. */
    method ParseInsert() returns (ok: bool)
      requires |list| > 0
      requires InsertHead(list, pos, intent).ok ==> Ends(list, InsertHead(list, pos, intent).pos, InValues)
      modifies `pos, `intent
      ensures Reached(InsertAt(list, old(pos), old(intent)), ok)
    {
      intent := intent.(statement := InsertRows);
      var into := Expect(Into);
      if into.None? {
        return false;
      }
      var table := Expect(Ident);
      if table.None? {
        return false;
      }
      intent := intent.(table := Name(table.value));
      var values := Expect(Values);
      if values.None? {
        return false;
      }
      var paren := Expect(LParen);
      if paren.None? {
        return false;
      }
      ParseValues();
      paren := Expect(RParen);
      return true;
    }

    /** parse_update. */
    method ParseUpdate() returns (ok: bool)
      requires |list| > 0
      modifies `pos, `intent
      ensures Reached(UpdateAt(list, old(pos), old(intent)), ok)
    {
      intent := intent.(statement := UpdateRows);
      var table := Expect(Ident);
      if table.None? {
        return false;
      }
      intent := intent.(table := Name(table.value));
      var keyword := Expect(Set);
      if keyword.None? {
        return false;
      }
      var column := Expect(Ident);
      if column.None? {
        return false;
      }
      intent := intent.(setColumn := Name(column.value));
      var sign := Expect(Equals);
      var value := Current();
      if value.kind == Number || value.kind == Str || value.kind == Ident {
        intent := intent.(setValue := ValueOf(value));
        value := Advance();
      }
      ParseWhere();
      return true;
    }

    /** parse_delete. */
    method ParseDelete() returns (ok: bool)
      requires |list| > 0
      modifies `pos, `intent
      ensures Reached(DeleteAt(list, old(pos), old(intent)), ok)
    {
      intent := intent.(statement := DeleteRows);
      var from := Expect(From);
      if from.None? {
        return false;
      }
      var table := Expect(Ident);
      if table.None? {
        return false;
      }
      intent := intent.(table := Name(table.value));
      ParseWhere();
      return true;
    }

    /** The column loop of parse_create, on lists on which it ends. */
    method ParseColumns()
      requires |list| > 0 && Ends(list, pos, InColumns)
      modifies `pos, `intent
      ensures var loop := ColumnLoop(list, old(pos), old(intent).columns);
              pos == loop.0 && intent == old(intent).(columns := loop.1)
    {
      hide Ends, ColumnLoop, Copy;
      var t := Current();
      while t.kind != RParen && t.kind != Eof
        invariant t == At(list, pos) && Ends(list, pos, InColumns)
        invariant intent == old(intent).(columns := intent.columns)
        invariant ColumnLoop(list, old(pos), old(intent).columns) == ColumnLoop(list, pos, intent.columns)
        decreases if pos < |list| then |list| - pos else 0
      {
        ColumnLoopStep(list, pos, intent.columns);
        var name := Expect(Ident);
        var type_ := Expect(Ident);
        if name.Some? && type_.Some? && |intent.columns| < MAX_COLUMNS {
          intent := intent.(columns := intent.columns + [Column(Name(name.value), Name(type_.value))]);
        }
        var comma := Check(Comma);
        if comma {
          t := Advance();
        }
        t := Current();
      }
      ColumnLoopStep(list, pos, intent.columns);
    }

    /** parse_create. */
    method ParseCreate() returns (ok: bool)
      requires |list| > 0
      requires !SaysDatabase(At(list, pos)) && CreateHead(list, pos, intent).ok ==>
                 Ends(list, CreateHead(list, pos, intent).pos, InColumns)
      modifies `pos, `intent
      ensures Reached(CreateAt(list, old(pos), old(intent)), ok)
    {
      var first := Current();
      if first.kind == Ident && Upper(first.value) == "DATABASE" {
        first := Advance();
        intent := intent.(statement := CreateDb);
        var db := Expect(Ident);
        if db.None? {
          return false;
        }
        intent := intent.(dbName := Name(db.value));
        return true;
      }
      intent := intent.(statement := CreateTable);
      var keyword := Expect(Table);
      if keyword.None? {
        return false;
      }
      var table := Expect(Ident);
      if table.None? {
        return false;
      }
      intent := intent.(table := Name(table.value));
      var paren := Expect(LParen);
      if paren.None? {
        return false;
      }
      ParseColumns();
      paren := Expect(RParen);
      return true;
    }

    /** parse_drop. */
    method ParseDrop() returns (ok: bool)
      requires |list| > 0
      modifies `pos, `intent
      ensures Reached(DropAt(list, old(pos), old(intent)), ok)
    {
      intent := intent.(statement := DropTable);
      var keyword := Expect(Table);
      if keyword.None? {
        return false;
      }
      var table := Expect(Ident);
      if table.None? {
        return false;
      }
      intent := intent.(table := Name(table.value));
      return true;
    }

    /** The USE case of parse. */
    method ParseUse() returns (ok: bool)
      requires |list| > 0
      modifies `pos, `intent
      ensures Reached(UseAt(list, old(pos), old(intent)), ok)
    {
      intent := intent.(statement := UseDb);
      var db := Expect(Ident);
      if db.None? {
        return false;
      }
      intent := intent.(dbName := Name(db.value));
      return true;
    }

    /** The switch of parse. */
    method ParseStatement() returns (ok: bool)
      requires |list| > 0 && pos == 0 && intent == Blank() && Terminates(list)
      modifies `pos, `intent
      ensures Reached(ParseTokens(list), ok)
    {
      var first := Current();
      match first.kind {
        case Begin =>
          first := Advance();
          intent := intent.(statement := BeginTxn);
          return true;
        case Commit =>
          first := Advance();
          intent := intent.(statement := CommitTxn);
          return true;
        case Select =>
          first := Advance();
          ok := ParseSelect();
        case Insert =>
          first := Advance();
          ok := ParseInsert();
        case Update =>
          first := Advance();
          ok := ParseUpdate();
        case Delete =>
          first := Advance();
          ok := ParseDelete();
        case Create =>
          first := Advance();
          ok := ParseCreate();
        case Drop =>
          first := Advance();
          ok := ParseDrop();
        case Use =>
          first := Advance();
          ok := ParseUse();
        case _ =>
          return false;
      }
    }
  }

  /** parse. */
  method Parse(sql: string) returns (ok: bool, intent: Intent)
    requires Terminates(Tokens(sql))
    ensures ok == ParseTokens(Tokens(sql)).ok && intent == ParseTokens(Tokens(sql)).intent
  {
    var tokens := Tokenize(sql);
    var parser := new TokenParser(tokens);
    ok := parser.ParseStatement();
    intent := parser.intent;
  }
}
