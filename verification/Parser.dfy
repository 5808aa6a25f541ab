/** The parser over the token list: its statements, when its loops end, and the code itself. */
module Parser {
  import opened Lexer

  const MAX_COLUMNS: nat := 32
  const MAX_VALUES: nat := 32
  const MAX_NAME_LEN: nat := 64
  const MAX_VALUE_LEN: nat := 256

  datatype Column = Column(name: string, type_: string)

  datatype WhereClause = WhereClause(active: bool, column: string, value: string)

  datatype Statement =
    | SelectRows | InsertRows | UpdateRows | DeleteRows | CreateTable | DropTable
    | CreateDb | UseDb | BeginTxn | CommitTxn | UnknownStatement

  datatype Intent = Intent(
    statement: Statement, table: string, dbName: string,
    selectAll: bool, selectCols: seq<string>,
    values: seq<string>, setColumn: string, setValue: string,
    columns: seq<Column>, where: WhereClause)

  /** The record that memset leaves. */
  function Blank(): Intent {
    Intent(UnknownStatement, "", "", false, [], [], "", "", [], WhereClause(false, "", ""))
  }

  // ---------------------------------------------------------------- the specification

  /** strncpy into a zeroed field of `size` characters, one short. */
  function Copy(s: string, size: nat): (r: string)
    requires size > 0
    ensures |s| < size ==> r == s
  {
    if |s| < size then s else s[..size - 1]
  }

  function Name(t: Token): string { Copy(t.value, MAX_NAME_LEN) }

  function ValueOf(t: Token): string { Copy(t.value, MAX_VALUE_LEN) }

  /** current: past the end it keeps showing the last token. */
  function At(ts: seq<Token>, pos: nat): Token
    requires |ts| > 0
  {
    if pos < |ts| then ts[pos] else ts[|ts| - 1]
  }

  predicate Is(ts: seq<Token>, pos: nat, kind: Kind)
    requires |ts| > 0
  {
    At(ts, pos).kind == kind
  }

  /** advance. */
  function Past(ts: seq<Token>, pos: nat): nat
    requires |ts| > 0
  {
    if Is(ts, pos, Eof) then pos else pos + 1
  }

  /** Moving over a token of the given kind, if it is there. */
  function Over(ts: seq<Token>, pos: nat, kind: Kind): nat
    requires |ts| > 0
  {
    if Is(ts, pos, kind) then Past(ts, pos) else pos
  }

  predicate IsValue(kind: Kind) {
    kind == Number || kind == Str || kind == Ident
  }

  datatype Outcome = Outcome(ok: bool, pos: nat, intent: Intent)

  function WhereAt(ts: seq<Token>, pos: nat, i: Intent): Outcome
    requires |ts| > 0
  {
    var i0 := i.(where := i.where.(active := false));
    if !Is(ts, pos, Where) then Outcome(true, pos, i0)
    else
      var p1 := Past(ts, pos);
      if !Is(ts, p1, Ident) then Outcome(true, p1, i0)
      else
        var i1 := i0.(where := i0.where.(column := Name(At(ts, p1))));
        var p3 := Over(ts, Past(ts, p1), Equals);
        if IsValue(At(ts, p3).kind) then
          Outcome(true, Past(ts, p3), i1.(where := WhereClause(true, i1.where.column, ValueOf(At(ts, p3)))))
        else Outcome(true, p3, i1)
  }

  function AddColumn(cols: seq<string>, name: string): seq<string> {
    if |cols| < MAX_COLUMNS then cols + [name] else cols
  }

  /** The column loop of parse_select. */
  function SelectLoop(ts: seq<Token>, pos: nat, cols: seq<string>): (nat, seq<string>)
    requires |ts| > 0
    decreases if pos < |ts| then |ts| - pos else 0
  {
    if !Is(ts, pos, Ident) then (pos, cols)
    else
      var cols' := AddColumn(cols, Name(At(ts, pos)));
      if !Is(ts, pos + 1, Comma) then (pos + 1, cols') else SelectLoop(ts, pos + 2, cols')
  }

  function SelectAt(ts: seq<Token>, pos: nat, i: Intent): Outcome
    requires |ts| > 0
  {
    var i0 := i.(statement := SelectRows);
    var loop := if Is(ts, pos, Star) then (Past(ts, pos), i0.selectCols) else SelectLoop(ts, pos, i0.selectCols);
    var i1 := i0.(selectAll := Is(ts, pos, Star), selectCols := loop.1);
    if !Is(ts, loop.0, From) then Outcome(false, loop.0, i1)
    else
      var p := Past(ts, loop.0);
      if !Is(ts, p, Ident) then Outcome(false, p, i1)
      else WhereAt(ts, Past(ts, p), i1.(table := Name(At(ts, p))))
  }

  predicate Closes(kind: Kind) {
    kind == RParen || kind == Eof
  }

  /** One round of the value loop of parse_insert. */
  function ValueRound(ts: seq<Token>, pos: nat, values: seq<string>): (nat, seq<string>)
    requires |ts| > 0
  {
    if IsValue(At(ts, pos).kind) then
      (Over(ts, Past(ts, pos), Comma), if |values| < MAX_VALUES then values + [ValueOf(At(ts, pos))] else values)
    else (Over(ts, pos, Comma), values)
  }

  /** One round of the column loop of parse_create. */
  function ColumnRound(ts: seq<Token>, pos: nat, columns: seq<Column>): (nat, seq<Column>)
    requires |ts| > 0
  {
    var p1 := Over(ts, pos, Ident);
    var p2 := Over(ts, p1, Ident);
    var both := Is(ts, pos, Ident) && Is(ts, p1, Ident);
    (Over(ts, p2, Comma),
     if both && |columns| < MAX_COLUMNS then columns + [Column(Name(At(ts, pos)), Name(At(ts, p1)))] else columns)
  }

  predicate InValues(kind: Kind) { IsValue(kind) || kind == Comma }

  predicate InColumns(kind: Kind) { kind == Ident || kind == Comma }

  /** A closing token comes after nothing but tokens that the loop consumes. */
  predicate Ends(ts: seq<Token>, pos: nat, eats: Kind -> bool)
    requires |ts| > 0
    decreases if pos < |ts| then |ts| - pos else 0
  {
    Closes(At(ts, pos).kind) || (pos < |ts| - 1 && eats(At(ts, pos).kind) && Ends(ts, pos + 1, eats))
  }

  lemma EndsShift(ts: seq<Token>, pos: nat, eats: Kind -> bool)
    requires |ts| > 0 && !Closes(At(ts, pos).kind) && eats(At(ts, pos).kind)
    ensures Ends(ts, pos, eats) <==> Ends(ts, pos + 1, eats)
    ensures Ends(ts, pos, eats) ==> pos < |ts| - 1
  {
  }

  /** A round of a loop moves past tokens that it consumes only. */
  lemma ValueRoundEnds(ts: seq<Token>, pos: nat, values: seq<string>)
    requires |ts| > 0 && !Closes(At(ts, pos).kind)
    ensures Ends(ts, ValueRound(ts, pos, values).0, InValues) <==> Ends(ts, pos, InValues)
    ensures Ends(ts, pos, InValues) ==> pos < ValueRound(ts, pos, values).0 && pos < |ts|
  {
    if InValues(At(ts, pos).kind) {
      EndsShift(ts, pos, InValues);
    }
    if IsValue(At(ts, pos).kind) && Is(ts, pos + 1, Comma) {
      EndsShift(ts, pos + 1, InValues);
    }
  }

  lemma ColumnRoundEnds(ts: seq<Token>, pos: nat, columns: seq<Column>)
    requires |ts| > 0 && !Closes(At(ts, pos).kind)
    ensures Ends(ts, ColumnRound(ts, pos, columns).0, InColumns) <==> Ends(ts, pos, InColumns)
    ensures Ends(ts, pos, InColumns) ==> pos < ColumnRound(ts, pos, columns).0 && pos < |ts|
  {
    if InColumns(At(ts, pos).kind) {
      EndsShift(ts, pos, InColumns);
    }
    if Is(ts, pos, Ident) {
      if InColumns(At(ts, pos + 1).kind) {
        EndsShift(ts, pos + 1, InColumns);
      }
      if Is(ts, pos + 1, Ident) && Is(ts, pos + 2, Comma) {
        EndsShift(ts, pos + 2, InColumns);
      }
    }
  }

  function ValueLoop(ts: seq<Token>, pos: nat, values: seq<string>): (nat, seq<string>)
    requires |ts| > 0 && Ends(ts, pos, InValues)
    decreases if pos < |ts| then |ts| - pos else 0
  {
    if Closes(At(ts, pos).kind) then (pos, values)
    else
      var next := ValueRound(ts, pos, values);
      ValueRoundEnds(ts, pos, values);
      ValueLoop(ts, next.0, next.1)
  }

  function ColumnLoop(ts: seq<Token>, pos: nat, columns: seq<Column>): (nat, seq<Column>)
    requires |ts| > 0 && Ends(ts, pos, InColumns)
    decreases if pos < |ts| then |ts| - pos else 0
  {
    if Closes(At(ts, pos).kind) then (pos, columns)
    else
      var next := ColumnRound(ts, pos, columns);
      ColumnRoundEnds(ts, pos, columns);
      ColumnLoop(ts, next.0, next.1)
  }

  lemma ValueLoopStep(ts: seq<Token>, pos: nat, values: seq<string>)
    requires |ts| > 0 && Ends(ts, pos, InValues)
    ensures var next := ValueRound(ts, pos, values);
            if Closes(At(ts, pos).kind) then ValueLoop(ts, pos, values) == (pos, values)
            else pos < next.0 && pos < |ts| && Ends(ts, next.0, InValues) && ValueLoop(ts, pos, values) == ValueLoop(ts, next.0, next.1)
  {
    if !Closes(At(ts, pos).kind) {
      ValueRoundEnds(ts, pos, values);
    }
    hide Ends;
  }

  lemma ColumnLoopStep(ts: seq<Token>, pos: nat, columns: seq<Column>)
    requires |ts| > 0 && Ends(ts, pos, InColumns)
    ensures var next := ColumnRound(ts, pos, columns);
            if Closes(At(ts, pos).kind) then ColumnLoop(ts, pos, columns) == (pos, columns)
            else pos < next.0 && pos < |ts| && Ends(ts, next.0, InColumns) && ColumnLoop(ts, pos, columns) == ColumnLoop(ts, next.0, next.1)
  {
    if !Closes(At(ts, pos).kind) {
      ColumnRoundEnds(ts, pos, columns);
    }
    hide Ends;
  }

  /** parse_insert up to its loop. */
  function InsertHead(ts: seq<Token>, pos: nat, i: Intent): Outcome
    requires |ts| > 0
  {
    var i0 := i.(statement := InsertRows);
    var p1, p2 := Over(ts, pos, Into), Over(ts, Over(ts, pos, Into), Ident);
    var i1 := i0.(table := Name(At(ts, p1)));
    if !Is(ts, pos, Into) then Outcome(false, pos, i0)
    else if !Is(ts, p1, Ident) then Outcome(false, p1, i0)
    else if !Is(ts, p2, Values) then Outcome(false, p2, i1)
    else if !Is(ts, Past(ts, p2), LParen) then Outcome(false, Past(ts, p2), i1)
    else Outcome(true, Past(ts, Past(ts, p2)), i1)
  }

  function InsertAt(ts: seq<Token>, pos: nat, i: Intent): Outcome
    requires |ts| > 0 && (InsertHead(ts, pos, i).ok ==> Ends(ts, InsertHead(ts, pos, i).pos, InValues))
  {
    var head := InsertHead(ts, pos, i);
    if !head.ok then head
    else
      var loop := ValueLoop(ts, head.pos, head.intent.values);
      Outcome(true, Over(ts, loop.0, RParen), head.intent.(values := loop.1))
  }

  function UpdateAt(ts: seq<Token>, pos: nat, i: Intent): Outcome
    requires |ts| > 0
  {
    var i0 := i.(statement := UpdateRows);
    var p1 := Over(ts, pos, Ident);
    var p2 := Over(ts, p1, Set);
    var p4 := Over(ts, Over(ts, p2, Ident), Equals);
    var i1 := i0.(table := Name(At(ts, pos)));
    var i2 := i1.(setColumn := Name(At(ts, p2)));
    if !Is(ts, pos, Ident) then Outcome(false, pos, i0)
    else if !Is(ts, p1, Set) then Outcome(false, p1, i1)
    else if !Is(ts, p2, Ident) then Outcome(false, p2, i1)
    else if IsValue(At(ts, p4).kind) then WhereAt(ts, Past(ts, p4), i2.(setValue := ValueOf(At(ts, p4))))
    else WhereAt(ts, p4, i2)
  }

  function DeleteAt(ts: seq<Token>, pos: nat, i: Intent): Outcome
    requires |ts| > 0
  {
    var i0 := i.(statement := DeleteRows);
    var p1 := Over(ts, pos, From);
    if !Is(ts, pos, From) then Outcome(false, pos, i0)
    else if !Is(ts, p1, Ident) then Outcome(false, p1, i0)
    else WhereAt(ts, Past(ts, p1), i0.(table := Name(At(ts, p1))))
  }

  /** CREATE DATABASE is recognised by the word, which is not a keyword of the tokeniser. */
  predicate SaysDatabase(t: Token) {
    t.kind == Ident && Upper(t.value) == "DATABASE"
  }

  function CreateDbAt(ts: seq<Token>, pos: nat, i: Intent): Outcome
    requires |ts| > 0
  {
    var i0, p1 := i.(statement := CreateDb), Past(ts, pos);
    if !Is(ts, p1, Ident) then Outcome(false, p1, i0)
    else Outcome(true, Past(ts, p1), i0.(dbName := Name(At(ts, p1))))
  }

  /** CREATE TABLE up to its loop. */
  function CreateHead(ts: seq<Token>, pos: nat, i: Intent): Outcome
    requires |ts| > 0
  {
    var i0 := i.(statement := CreateTable);
    var p1 := Over(ts, pos, Table);
    var p2 := Over(ts, p1, Ident);
    var i1 := i0.(table := Name(At(ts, p1)));
    if !Is(ts, pos, Table) then Outcome(false, pos, i0)
    else if !Is(ts, p1, Ident) then Outcome(false, p1, i0)
    else if !Is(ts, p2, LParen) then Outcome(false, p2, i1)
    else Outcome(true, Past(ts, p2), i1)
  }

  function CreateAt(ts: seq<Token>, pos: nat, i: Intent): Outcome
    requires |ts| > 0
    requires !SaysDatabase(At(ts, pos)) && CreateHead(ts, pos, i).ok ==> Ends(ts, CreateHead(ts, pos, i).pos, InColumns)
  {
    if SaysDatabase(At(ts, pos)) then CreateDbAt(ts, pos, i)
    else
      var head := CreateHead(ts, pos, i);
      if !head.ok then head
      else
        var loop := ColumnLoop(ts, head.pos, head.intent.columns);
        Outcome(true, Over(ts, loop.0, RParen), head.intent.(columns := loop.1))
  }

  function DropAt(ts: seq<Token>, pos: nat, i: Intent): Outcome
    requires |ts| > 0
  {
    var i0, p1 := i.(statement := DropTable), Over(ts, pos, Table);
    if !Is(ts, pos, Table) then Outcome(false, pos, i0)
    else if !Is(ts, p1, Ident) then Outcome(false, p1, i0)
    else Outcome(true, Past(ts, p1), i0.(table := Name(At(ts, p1))))
  }

  function UseAt(ts: seq<Token>, pos: nat, i: Intent): Outcome
    requires |ts| > 0
  {
    var i0 := i.(statement := UseDb);
    if !Is(ts, pos, Ident) then Outcome(false, pos, i0)
    else Outcome(true, Past(ts, pos), i0.(dbName := Name(At(ts, pos))))
  }

  /** The parser's loops come to an end. */
  predicate Terminates(ts: seq<Token>)
    requires |ts| > 0
  {
    match ts[0].kind
    case Insert =>
      var head := InsertHead(ts, 1, Blank());
      head.ok ==> Ends(ts, head.pos, InValues)
    case Create =>
      var head := CreateHead(ts, 1, Blank());
      !SaysDatabase(At(ts, 1)) && head.ok ==> Ends(ts, head.pos, InColumns)
    case _ => true
  }

  /** parse, after the tokeniser. */
  function ParseTokens(ts: seq<Token>): Outcome
    requires |ts| > 0 && Terminates(ts)
  {
    match ts[0].kind
    case Begin => Outcome(true, 1, Blank().(statement := BeginTxn))
    case Commit => Outcome(true, 1, Blank().(statement := CommitTxn))
    case Select => SelectAt(ts, 1, Blank())
    case Insert => InsertAt(ts, 1, Blank())
    case Update => UpdateAt(ts, 1, Blank())
    case Delete => DeleteAt(ts, 1, Blank())
    case Create => CreateAt(ts, 1, Blank())
    case Drop => DropAt(ts, 1, Blank())
    case Use => UseAt(ts, 1, Blank())
    case _ => Outcome(false, 0, Blank())
  }

  // ---------------------------------------------------------------- loops that never end

  /** Where the value loop stands after `n` rounds, as long as it goes on. */
  function ValueRounds(ts: seq<Token>, pos: nat, n: nat): nat
    requires |ts| > 0
    decreases n
  {
    if n == 0 || Closes(At(ts, pos).kind) then pos else ValueRounds(ts, ValueRound(ts, pos, []).0, n - 1)
  }

  function ColumnRounds(ts: seq<Token>, pos: nat, n: nat): nat
    requires |ts| > 0
    decreases n
  {
    if n == 0 || Closes(At(ts, pos).kind) then pos else ColumnRounds(ts, ColumnRound(ts, pos, []).0, n - 1)
  }

  predicate ValuesCloseAfter(ts: seq<Token>, pos: nat, n: nat)
    requires |ts| > 0
  {
    Closes(At(ts, ValueRounds(ts, pos, n)).kind)
  }

  predicate ColumnsCloseAfter(ts: seq<Token>, pos: nat, n: nat)
    requires |ts| > 0
  {
    Closes(At(ts, ColumnRounds(ts, pos, n)).kind)
  }

  /** A token that the loop does not consume stops it from moving, for ever; so does a list that ends
      without a closing token.  Otherwise the loop ends. */
  lemma ValueLoopEnds(ts: seq<Token>, pos: nat)
    requires |ts| > 0
    ensures (exists n: nat :: ValuesCloseAfter(ts, pos, n)) <==> Ends(ts, pos, InValues)
  {
    if Ends(ts, pos, InValues) {
      var n := ValuesDone(ts, pos);
      assert ValuesCloseAfter(ts, pos, n);
    } else {
      forall n: nat ensures !ValuesCloseAfter(ts, pos, n) {
        ValuesStuck(ts, pos, n);
      }
    }
  }

  lemma {:induction false} ValuesDone(ts: seq<Token>, pos: nat) returns (n: nat)
    requires |ts| > 0 && Ends(ts, pos, InValues)
    ensures ValuesCloseAfter(ts, pos, n)
    decreases if pos < |ts| then |ts| - pos else 0
  {
    n := 0;
    if !Closes(At(ts, pos).kind) {
      ValueRoundEnds(ts, pos, []);
      var m := ValuesDone(ts, ValueRound(ts, pos, []).0);
      n := m + 1;
    }
  }

  lemma {:induction false} ValuesStuck(ts: seq<Token>, pos: nat, n: nat)
    requires |ts| > 0 && !Ends(ts, pos, InValues)
    ensures !ValuesCloseAfter(ts, pos, n)
    decreases n
  {
    if n > 0 {
      ValueRoundEnds(ts, pos, []);
      ValuesStuck(ts, ValueRound(ts, pos, []).0, n - 1);
    }
  }

  lemma ColumnLoopEnds(ts: seq<Token>, pos: nat)
    requires |ts| > 0
    ensures (exists n: nat :: ColumnsCloseAfter(ts, pos, n)) <==> Ends(ts, pos, InColumns)
  {
    if Ends(ts, pos, InColumns) {
      var n := ColumnsDone(ts, pos);
      assert ColumnsCloseAfter(ts, pos, n);
    } else {
      forall n: nat ensures !ColumnsCloseAfter(ts, pos, n) {
        ColumnsStuck(ts, pos, n);
      }
    }
  }

  lemma {:induction false} ColumnsDone(ts: seq<Token>, pos: nat) returns (n: nat)
    requires |ts| > 0 && Ends(ts, pos, InColumns)
    ensures ColumnsCloseAfter(ts, pos, n)
    decreases if pos < |ts| then |ts| - pos else 0
  {
    n := 0;
    if !Closes(At(ts, pos).kind) {
      ColumnRoundEnds(ts, pos, []);
      var m := ColumnsDone(ts, ColumnRound(ts, pos, []).0);
      n := m + 1;
    }
  }

  lemma {:induction false} ColumnsStuck(ts: seq<Token>, pos: nat, n: nat)
    requires |ts| > 0 && !Ends(ts, pos, InColumns)
    ensures !ColumnsCloseAfter(ts, pos, n)
    decreases n
  {
    if n > 0 {
      ColumnRoundEnds(ts, pos, []);
      ColumnsStuck(ts, ColumnRound(ts, pos, []).0, n - 1);
    }
  }
}
