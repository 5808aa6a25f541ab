/** Statements as text: every way of writing a statement down is read back as that statement, and which
    texts are accepted at all. */
module SqlRoundTrip {
  import opened Lexer
  import opened Spelling
  import opened Parser

  // ---------------------------------------------------------------- what a statement is made of

  /** A place in a statement: a keyword or sign, a name, a value that may be written as a number, as a
      word or in quotes, or a word that is no keyword of the tokeniser. */
  datatype Piece = Key(kind: Kind) | Named(name: string) | Plain(value: string) | Spelled(word: string)

  predicate Fits(t: Token, p: Piece) {
    match p
    case Key(kind) => t.kind == kind
    case Named(name) => t.kind == Ident && t.value == name
    case Plain(value) => (t.kind == Number || t.kind == Str || t.kind == Ident) && t.value == value
    case Spelled(word) => t.kind == Ident && SameLetters(t.value, word)
  }

  /** The tokens from `pos` on fit the pieces. */
  ghost predicate ReadsAt(ts: seq<Token>, pos: nat, ps: seq<Piece>) {
    pos + |ps| <= |ts| && forall i :: 0 <= i < |ps| ==> Fits(ts[pos + i], ps[i])
  }

  function NamePieces(names: seq<string>): seq<Piece> {
    if |names| == 0 then []
    else [Named(names[0])] + (if |names| == 1 then [] else [Key(Comma)]) + NamePieces(names[1..])
  }

  function ValuePieces(values: seq<string>): seq<Piece> {
    if |values| == 0 then []
    else [Plain(values[0])] + (if |values| == 1 then [] else [Key(Comma)]) + ValuePieces(values[1..])
  }

  function ColumnPieces(columns: seq<Column>): seq<Piece> {
    if |columns| == 0 then []
    else
      [Named(columns[0].name), Named(columns[0].type_)] + (if |columns| == 1 then [] else [Key(Comma)]) + ColumnPieces(columns[1..])
  }

  /** The sign between a column and its value may be missing. */
  function EqualsPieces(sign: bool): seq<Piece> {
    if sign then [Key(Equals)] else []
  }

  function WherePieces(w: WhereClause, sign: bool): seq<Piece> {
    if w.active then [Key(Where), Named(w.column)] + EqualsPieces(sign) + [Plain(w.value)] else []
  }

  function PiecesOf(i: Intent, sign: bool): seq<Piece> {
    match i.statement
    case SelectRows =>
      [Key(Select)] + (if i.selectAll then [Key(Star)] else NamePieces(i.selectCols)) + [Key(From), Named(i.table)] + WherePieces(i.where, sign)
    case InsertRows =>
      [Key(Insert), Key(Into), Named(i.table), Key(Values), Key(LParen)] + ValuePieces(i.values) + [Key(RParen)]
    case UpdateRows =>
      [Key(Update), Named(i.table), Key(Set), Named(i.setColumn)] + EqualsPieces(sign) + [Plain(i.setValue)] + WherePieces(i.where, sign)
    case DeleteRows => [Key(Delete), Key(From), Named(i.table)] + WherePieces(i.where, sign)
    case CreateTable => [Key(Create), Key(Table), Named(i.table), Key(LParen)] + ColumnPieces(i.columns) + [Key(RParen)]
    case DropTable => [Key(Drop), Key(Table), Named(i.table)]
    case CreateDb => [Key(Create), Spelled("DATABASE"), Named(i.dbName)]
    case UseDb => [Key(Use), Named(i.dbName)]
    case BeginTxn => [Key(Begin)]
    case CommitTxn => [Key(Commit)]
    case UnknownStatement => []
  }

  /** What a statement of this kind can say; everything else is blank. */
  predicate WellFormed(i: Intent) {
    var blank := Blank().(statement := i.statement);
    && (!i.where.active ==> i.where == Blank().where)
    && match i.statement
       case SelectRows =>
         && i == blank.(table := i.table, selectAll := i.selectAll, selectCols := i.selectCols, where := i.where)
         && (i.selectAll ==> i.selectCols == [])
       case InsertRows => i == blank.(table := i.table, values := i.values)
       case UpdateRows => i == blank.(table := i.table, setColumn := i.setColumn, setValue := i.setValue, where := i.where)
       case DeleteRows => i == blank.(table := i.table, where := i.where)
       case CreateTable => i == blank.(table := i.table, columns := i.columns)
       case DropTable => i == blank.(table := i.table)
       case CreateDb | UseDb => i == blank.(dbName := i.dbName)
       case BeginTxn | CommitTxn => i == blank
       case UnknownStatement => false
  }

  // ---------------------------------------------------------------- what the parser keeps of it

  /** At most the first `n` elements. */
  function First<T>(s: seq<T>, n: nat): seq<T> {
    if |s| <= n then s else s[..n]
  }

  function Short(name: string): string { First(name, MAX_NAME_LEN - 1) }

  function ShortValue(value: string): string { First(value, MAX_VALUE_LEN - 1) }

  function Shorts(names: seq<string>): seq<string> {
    seq(|names|, k requires 0 <= k < |names| => Short(names[k]))
  }

  function ShortValues(values: seq<string>): seq<string> {
    seq(|values|, k requires 0 <= k < |values| => ShortValue(values[k]))
  }

  function ShortColumns(columns: seq<Column>): seq<Column> {
    seq(|columns|, k requires 0 <= k < |columns| => Column(Short(columns[k].name), Short(columns[k].type_)))
  }

  /** Names of at most 63 characters, values of at most 255, lists of at most 32. */
  function Clip(i: Intent): Intent {
    Intent(i.statement, Short(i.table), Short(i.dbName),
           i.selectAll, First(Shorts(i.selectCols), MAX_COLUMNS),
           First(ShortValues(i.values), MAX_VALUES), Short(i.setColumn), ShortValue(i.setValue),
           First(ShortColumns(i.columns), MAX_COLUMNS),
           WhereClause(i.where.active, Short(i.where.column), ShortValue(i.where.value)))
  }

  lemma CopyIsFirst(s: string)
    ensures Copy(s, MAX_NAME_LEN) == Short(s) && Copy(s, MAX_VALUE_LEN) == ShortValue(s)
  {
  }

  lemma FirstMore<T>(a: seq<T>, x: T, b: seq<T>, n: nat)
    requires |a| <= n
    ensures First((if |a| < n then a + [x] else a) + b, n) == First(a + ([x] + b), n)
  {
  }

  // ---------------------------------------------------------------- tokens and pieces

  lemma ReadsSplit(ts: seq<Token>, pos: nat, a: seq<Piece>, b: seq<Piece>)
    requires ReadsAt(ts, pos, a + b)
    ensures ReadsAt(ts, pos, a) && ReadsAt(ts, pos + |a|, b)
  {
    hide Fits;
    forall i | 0 <= i < |a| ensures Fits(ts[pos + i], a[i]) {
      assert (a + b)[i] == a[i];
    }
    forall i | 0 <= i < |b| ensures Fits(ts[pos + |a| + i], b[i]) {
      assert (a + b)[|a| + i] == b[i];
    }
  }

  lemma ReadsOne(ts: seq<Token>, pos: nat, p: Piece)
    requires ReadsAt(ts, pos, [p])
    ensures pos < |ts| && Fits(ts[pos], p)
  {
    assert [p][0] == p;
  }

  lemma ReadsTwo(ts: seq<Token>, pos: nat, p: Piece, q: Piece)
    requires ReadsAt(ts, pos, [p, q])
    ensures pos + 1 < |ts| && Fits(ts[pos], p) && Fits(ts[pos + 1], q)
  {
    assert [p, q][0] == p && [p, q][1] == q;
  }

  lemma ReadsThree(ts: seq<Token>, pos: nat, p: Piece, q: Piece, r: Piece)
    requires ReadsAt(ts, pos, [p, q, r])
    ensures pos + 2 < |ts| && Fits(ts[pos], p) && Fits(ts[pos + 1], q) && Fits(ts[pos + 2], r)
  {
    assert [p, q, r][0] == p && [p, q, r][1] == q && [p, q, r][2] == r;
  }

  lemma ReadsFour(ts: seq<Token>, pos: nat, p: Piece, q: Piece, r: Piece, s: Piece)
    requires ReadsAt(ts, pos, [p, q, r, s])
    ensures pos + 3 < |ts| && Fits(ts[pos], p) && Fits(ts[pos + 1], q) && Fits(ts[pos + 2], r) && Fits(ts[pos + 3], s)
  {
    assert [p, q, r, s][0] == p && [p, q, r, s][1] == q && [p, q, r, s][2] == r && [p, q, r, s][3] == s;
  }

  /** Nothing that belongs to the statement comes at `pos`. */
  predicate Finished(ts: seq<Token>, pos: nat) {
    pos < |ts| && (ts[pos].kind == Semicolon || ts[pos].kind == Eof)
  }

  lemma WhereBack(ts: seq<Token>, pos: nat, i: Intent, w: WhereClause, sign: bool)
    requires ReadsAt(ts, pos, WherePieces(w, sign)) && Finished(ts, pos + |WherePieces(w, sign)|)
    requires i.where == Blank().where && (!w.active ==> w == Blank().where)
    ensures WhereAt(ts, pos, i).ok
    ensures WhereAt(ts, pos, i).intent == i.(where := WhereClause(w.active, Short(w.column), ShortValue(w.value)))
  {
    CopyIsFirst(w.column);
    CopyIsFirst(w.value);
    hide ReadsAt, Copy, Short, ShortValue;
    if w.active {
      var head := [Key(Where), Named(w.column)];
      assert WherePieces(w, sign) == head + (EqualsPieces(sign) + [Plain(w.value)]);
      ReadsSplit(ts, pos, head, EqualsPieces(sign) + [Plain(w.value)]);
      ReadsTwo(ts, pos, Key(Where), Named(w.column));
      ReadsSplit(ts, pos + 2, EqualsPieces(sign), [Plain(w.value)]);
      ReadsOne(ts, pos + 2 + |EqualsPieces(sign)|, Plain(w.value));
      if sign {
        ReadsOne(ts, pos + 2, Key(Equals));
      }
      hide WherePieces;
      WhereEval(ts, pos, i, w.column, w.value, sign);
    } else {
      NothingShort();
    }
  }

  lemma NothingShort()
    ensures Short("") == "" && ShortValue("") == ""
  {
  }

  lemma WhereEval(ts: seq<Token>, pos: nat, i: Intent, column: string, value: string, sign: bool)
    requires var p := pos + if sign then 3 else 2;
             && p < |ts| && ts[pos].kind == Where && Fits(ts[pos + 1], Named(column)) && Fits(ts[p], Plain(value))
             && (sign ==> ts[pos + 2].kind == Equals)
    ensures WhereAt(ts, pos, i).ok
    ensures WhereAt(ts, pos, i).intent == i.(where := WhereClause(true, Copy(column, MAX_NAME_LEN), Copy(value, MAX_VALUE_LEN)))
  {
    hide Copy;
  }

  // ---------------------------------------------------------------- the loops

  lemma NameRound(ts: seq<Token>, pos: nat, cols: seq<string>, name: string)
    requires pos + 1 < |ts| && Fits(ts[pos], Named(name)) && |cols| <= MAX_COLUMNS
    ensures var more := if |cols| < MAX_COLUMNS then cols + [Short(name)] else cols;
            SelectLoop(ts, pos, cols) == if ts[pos + 1].kind == Comma then SelectLoop(ts, pos + 2, more) else (pos + 1, more)
  {
    CopyIsFirst(name);
    hide Copy, Short;
  }

  lemma NamesStep(names: seq<string>)
    requires |names| > 0
    ensures NamePieces(names) == [Named(names[0])] + (if |names| == 1 then [] else [Key(Comma)]) + NamePieces(names[1..])
    ensures Shorts(names) == [Short(names[0])] + Shorts(names[1..])
    ensures |names| == 1 ==> NamePieces(names[1..]) == [] && Shorts(names[1..]) == []
  {
  }

  lemma NoNames()
    ensures NamePieces([]) == [] && Shorts([]) == []
  {
  }

  lemma SelectStops(ts: seq<Token>, pos: nat, cols: seq<string>)
    requires pos < |ts| && ts[pos].kind == From
    ensures SelectLoop(ts, pos, cols) == (pos, cols)
  {
  }

  /** The column loop takes the names, the first 32 of them. */
  lemma {:induction false} NamesBack(ts: seq<Token>, pos: nat, cols: seq<string>, names: seq<string>)
    requires ReadsAt(ts, pos, NamePieces(names)) && |cols| <= MAX_COLUMNS
    requires pos + |NamePieces(names)| < |ts| && ts[pos + |NamePieces(names)|].kind == From
    ensures SelectLoop(ts, pos, cols) == (pos + |NamePieces(names)|, First(cols + Shorts(names), MAX_COLUMNS))
    decreases |names|
  {
    hide NamePieces, Shorts, Short, ReadsAt, SelectLoop, Fits;
    if |names| == 0 {
      NoNames();
      SelectStops(ts, pos, cols);
      assert cols + [] == cols;
    } else {
      NamesStep(names);
      var x, rest := names[0], names[1..];
      var more := if |cols| < MAX_COLUMNS then cols + [Short(x)] else cols;
      FirstMore(cols, Short(x), Shorts(rest), MAX_COLUMNS);
      if |names| == 1 {
        assert NamePieces(names) == [Named(x)];
        ReadsOne(ts, pos, Named(x));
        NameRound(ts, pos, cols, x);
        assert more + [] == more;
      } else {
        var head := [Named(x), Key(Comma)];
        assert NamePieces(names) == head + NamePieces(rest);
        ReadsSplit(ts, pos, head, NamePieces(rest));
        ReadsTwo(ts, pos, Named(x), Key(Comma));
        KeyKind(ts[pos + 1], Comma);
        NameRound(ts, pos, cols, x);
        NamesBack(ts, pos + 2, more, rest);
      }
    }
  }

  lemma KeyKind(t: Token, kind: Kind)
    ensures Fits(t, Key(kind)) <==> t.kind == kind
  {
  }

  /** The values among some tokens. */
  function ValuesAmong(ts: seq<Token>): seq<string> {
    if |ts| == 0 then []
    else
      (if ts[0].kind == Number || ts[0].kind == Str || ts[0].kind == Ident then [ShortValue(ts[0].value)] else []) + ValuesAmong(ts[1..])
  }

  lemma ValuesFrom(ts: seq<Token>, pos: nat, end: nat)
    requires pos < end <= |ts|
    ensures ValuesAmong(ts[pos..end])
         == (if IsValue(ts[pos].kind) then [ShortValue(ts[pos].value)] else []) + ValuesAmong(ts[pos + 1..end])
  {
    assert ts[pos..end][1..] == ts[pos + 1..end];
  }

  /** However values and commas are mixed, the value loop takes the values, the first 32 of them. */
  lemma {:induction false} ValueLoopTakes(ts: seq<Token>, pos: nat, end: nat, vals: seq<string>)
    requires pos <= end < |ts| && (ts[end].kind == RParen || ts[end].kind == Eof) && |vals| <= MAX_VALUES
    requires forall k :: pos <= k < end ==> ts[k].kind == Number || ts[k].kind == Str || ts[k].kind == Ident || ts[k].kind == Comma
    ensures Ends(ts, pos, InValues)
    ensures ValueLoop(ts, pos, vals) == (end, First(vals + ValuesAmong(ts[pos..end]), MAX_VALUES))
    decreases end - pos
  {
    hide ValuesAmong, ShortValue, ValueLoop;
    if pos == end {
      ValueLoopStep(ts, pos, vals);
      NoValuesAmong(ts[pos..end]);
      assert vals + [] == vals;
    } else {
      hide Ends, ValueRound;
      ValuesFrom(ts, pos, end);
      var next := ValueRound(ts, pos, vals);
      ValueRoundIs(ts, pos, vals);
      var rest := ValuesAmong(ts[next.0..end]);
      ValueLoopTakes(ts, next.0, end, next.1);
      MoreEnds(ts, pos, next.0);
      ValueLoopStep(ts, pos, vals);
      if IsValue(ts[pos].kind) {
        if ts[pos + 1].kind == Comma {
          ValuesFrom(ts, pos + 1, end);
          assert [] + rest == rest;
        }
        FirstMore(vals, ShortValue(ts[pos].value), rest, MAX_VALUES);
      } else {
        assert [] + rest == rest;
      }
    }
  }

  lemma NoValuesAmong(ts: seq<Token>)
    requires |ts| == 0
    ensures ValuesAmong(ts) == []
  {
  }

  lemma ValueRoundIs(ts: seq<Token>, pos: nat, vals: seq<string>)
    requires pos + 1 < |ts| && (IsValue(ts[pos].kind) || ts[pos].kind == Comma)
    ensures IsValue(ts[pos].kind) ==>
              ValueRound(ts, pos, vals) == (if ts[pos + 1].kind == Comma then pos + 2 else pos + 1,
                                            if |vals| < MAX_VALUES then vals + [ShortValue(ts[pos].value)] else vals)
    ensures !IsValue(ts[pos].kind) ==> ValueRound(ts, pos, vals) == (pos + 1, vals)
  {
    CopyIsFirst(ts[pos].value);
    hide Copy, ShortValue;
  }

  lemma MoreEnds(ts: seq<Token>, pos: nat, next: nat)
    requires pos + 1 < |ts| && next < |ts| && Ends(ts, next, InValues) && InValues(ts[pos].kind)
    requires next == pos + 1 || (next == pos + 2 && ts[pos + 1].kind == Comma)
    ensures Ends(ts, pos, InValues)
  {
    if next == pos + 2 {
      assert Ends(ts, pos + 1, InValues);
    }
  }

  /** The tokens of a value list hold its values and nothing else but commas. */
  lemma {:induction false} ValuesRead(ts: seq<Token>, pos: nat, values: seq<string>)
    requires ReadsAt(ts, pos, ValuePieces(values))
    ensures var end := pos + |ValuePieces(values)|;
            && end <= |ts| && ValuesAmong(ts[pos..end]) == ShortValues(values)
            && forall k :: pos <= k < end ==> ts[k].kind == Number || ts[k].kind == Str || ts[k].kind == Ident || ts[k].kind == Comma
    decreases |values|
  {
    hide ValuePieces, ReadsAt, ValuesAmong, ShortValues;
    if |values| == 0 {
      NoValues();
      ReadsEnd(ts, pos, []);
      NoValuesAmong(ts[pos..pos]);
    } else {
      var x, rest := values[0], values[1..];
      var sep := if |values| == 1 then [] else [Key(Comma)];
      var head := [Plain(x)] + sep;
      ValuesStep(values);
      hide ShortValue;
      var end := pos + |head| + |ValuePieces(rest)|;
      ReadsSplit(ts, pos, head, ValuePieces(rest));
      ReadsSplit(ts, pos, [Plain(x)], sep);
      ReadsOne(ts, pos, Plain(x));
      ValuesRead(ts, pos + |head|, rest);
      ReadsEnd(ts, pos + |head|, ValuePieces(rest));
      ValuesFrom(ts, pos, end);
      if |values| > 1 {
        ReadsOne(ts, pos + 1, Key(Comma));
        ValuesFrom(ts, pos + 1, end);
      }
    }
  }

  lemma NoValues()
    ensures ValuePieces([]) == [] && ShortValues([]) == []
  {
  }

  lemma ValuesStep(values: seq<string>)
    requires |values| > 0
    ensures ValuePieces(values) == [Plain(values[0])] + (if |values| == 1 then [] else [Key(Comma)]) + ValuePieces(values[1..])
    ensures ShortValues(values) == [ShortValue(values[0])] + ShortValues(values[1..])
  {
  }

  lemma ReadsEnd(ts: seq<Token>, pos: nat, ps: seq<Piece>)
    requires ReadsAt(ts, pos, ps)
    ensures pos + |ps| <= |ts|
  {
  }

  lemma OneColumn(ts: seq<Token>, pos: nat, cols: seq<Column>, c: Column)
    requires pos + 2 < |ts| && Fits(ts[pos], Named(c.name)) && Fits(ts[pos + 1], Named(c.type_)) && |cols| <= MAX_COLUMNS
    requires var next := if ts[pos + 2].kind == Comma then pos + 3 else pos + 2;
             (ts[pos + 2].kind == Comma || ts[pos + 2].kind == RParen) && next < |ts| && Ends(ts, next, InColumns)
    ensures Ends(ts, pos, InColumns)
    ensures var more := if |cols| < MAX_COLUMNS then cols + [Column(Short(c.name), Short(c.type_))] else cols;
            ColumnLoop(ts, pos, cols) == ColumnLoop(ts, if ts[pos + 2].kind == Comma then pos + 3 else pos + 2, more)
  {
    CopyIsFirst(c.name);
    CopyIsFirst(c.type_);
    hide Copy, Short, ColumnLoop;
    assert Ends(ts, pos + 2, InColumns);
    assert Ends(ts, pos + 1, InColumns);
    ColumnLoopStep(ts, pos, cols);
  }

  lemma ColumnsStep(columns: seq<Column>)
    requires |columns| > 0
    ensures ColumnPieces(columns)
         == [Named(columns[0].name), Named(columns[0].type_)] + (if |columns| == 1 then [] else [Key(Comma)]) + ColumnPieces(columns[1..])
    ensures ShortColumns(columns) == [Column(Short(columns[0].name), Short(columns[0].type_))] + ShortColumns(columns[1..])
  {
  }

  lemma NoColumns()
    ensures ColumnPieces([]) == [] && ShortColumns([]) == []
  {
  }

  lemma ColumnsStop(ts: seq<Token>, pos: nat, cols: seq<Column>)
    requires pos < |ts| && ts[pos].kind == RParen
    ensures Ends(ts, pos, InColumns) && ColumnLoop(ts, pos, cols) == (pos, cols)
  {
  }

  /** The column loop of CREATE TABLE takes the columns, the first 32 of them. */
  lemma {:induction false} ColumnsBack(ts: seq<Token>, pos: nat, cols: seq<Column>, columns: seq<Column>)
    requires ReadsAt(ts, pos, ColumnPieces(columns)) && |cols| <= MAX_COLUMNS
    requires pos + |ColumnPieces(columns)| < |ts| && ts[pos + |ColumnPieces(columns)|].kind == RParen
    ensures |ts| > 0 && Ends(ts, pos, InColumns)
    ensures ColumnLoop(ts, pos, cols) == (pos + |ColumnPieces(columns)|, First(cols + ShortColumns(columns), MAX_COLUMNS))
    decreases |columns|
  {
    hide ColumnPieces, ShortColumns, Short, ReadsAt, ColumnLoop, Ends, Fits;
    NoColumns();
    if |columns| == 0 {
      ColumnsStop(ts, pos, cols);
      assert cols + [] == cols;
    } else {
      ColumnsStep(columns);
      var c, rest := columns[0], columns[1..];
      var sep := if |columns| == 1 then [] else [Key(Comma)];
      var head := [Named(c.name), Named(c.type_)];
      assert ColumnPieces(columns) == head + (sep + ColumnPieces(rest));
      ReadsSplit(ts, pos, head, sep + ColumnPieces(rest));
      ReadsTwo(ts, pos, Named(c.name), Named(c.type_));
      ReadsSplit(ts, pos + 2, sep, ColumnPieces(rest));
      var more := if |cols| < MAX_COLUMNS then cols + [Column(Short(c.name), Short(c.type_))] else cols;
      if |columns| > 1 {
        ReadsOne(ts, pos + 2, Key(Comma));
        KeyKind(ts[pos + 2], Comma);
      }
      ColumnsBack(ts, pos + 2 + |sep|, more, rest);
      OneColumn(ts, pos, cols, c);
      FirstMore(cols, Column(Short(c.name), Short(c.type_)), ShortColumns(rest), MAX_COLUMNS);
    }
  }

  // ---------------------------------------------------------------- the statements

  /** Parsing ends, succeeds and gives the statement. */
  predicate ReadsBack(ts: seq<Token>, i: Intent) {
    |ts| > 0 && Terminates(ts) && ParseTokens(ts).ok && ParseTokens(ts).intent == i
  }

  /** The tokens of a statement, and nothing else that belongs to one. */
  ghost predicate Says(ts: seq<Token>, i: Intent, sign: bool) {
    WellFormed(i) && ReadsAt(ts, 0, PiecesOf(i, sign)) && Finished(ts, |PiecesOf(i, sign)|)
  }

  lemma NothingClipped()
    ensures Clip(Blank()) == Blank()
  {
  }

  lemma SelectClauses(ts: seq<Token>, p: nat, cols: seq<string>, table: string)
    requires 1 <= p && p + 1 < |ts| && ts[p].kind == From && Fits(ts[p + 1], Named(table))
    requires if ts[1].kind == Star then p == 2 && cols == [] else SelectLoop(ts, 1, []) == (p, cols)
    ensures SelectAt(ts, 1, Blank())
         == WhereAt(ts, p + 2, Blank().(statement := SelectRows, selectAll := ts[1].kind == Star, selectCols := cols,
                                        table := Copy(table, MAX_NAME_LEN)))
  {
    hide SelectLoop, WhereAt, Copy;
  }

  lemma SelectEval(ts: seq<Token>, p: nat, cols: seq<string>, table: string)
    requires 1 <= p && p + 1 < |ts| && ts[0].kind == Select && ts[p].kind == From && Fits(ts[p + 1], Named(table))
    requires if ts[1].kind == Star then p == 2 && cols == [] else SelectLoop(ts, 1, []) == (p, cols)
    ensures Terminates(ts)
    ensures ParseTokens(ts)
         == WhereAt(ts, p + 2, Blank().(statement := SelectRows, selectAll := ts[1].kind == Star, selectCols := cols,
                                        table := Short(table)))
  {
    hide SelectAt, SelectLoop, WhereAt, Copy, Short, InsertAt, UpdateAt, DeleteAt, CreateAt, DropAt, UseAt, InsertHead, CreateHead, Ends;
    SelectClauses(ts, p, cols, table);
    CopyIsFirst(table);
  }

  lemma FirstName(ts: seq<Token>, names: seq<string>)
    requires ReadsAt(ts, 1, NamePieces(names)) && 1 + |NamePieces(names)| < |ts| && ts[1 + |NamePieces(names)|].kind == From
    ensures ts[1].kind != Star
  {
    if |names| > 0 {
      assert NamePieces(names)[0] == Named(names[0]);
      assert Fits(ts[1 + 0], NamePieces(names)[0]);
    }
  }

  lemma SelectBack(ts: seq<Token>, i: Intent, sign: bool)
    requires Says(ts, i, sign) && i.statement == SelectRows
    ensures ReadsBack(ts, Clip(i))
  {
    hide ReadsAt, NamePieces, WherePieces, Shorts, Short, ShortValue, WhereAt, Terminates, ParseTokens, SelectLoop;
    var list := if i.selectAll then [Key(Star)] else NamePieces(i.selectCols);
    var from, where := [Key(From), Named(i.table)], WherePieces(i.where, sign);
    assert PiecesOf(i, sign) == [Key(Select)] + (list + (from + where));
    hide PiecesOf;
    ReadsSplit(ts, 0, [Key(Select)], list + (from + where));
    ReadsOne(ts, 0, Key(Select));
    ReadsSplit(ts, 1, list, from + where);
    ReadsSplit(ts, 1 + |list|, from, where);
    ReadsTwo(ts, 1 + |list|, Key(From), Named(i.table));
    var cols := First(Shorts(i.selectCols), MAX_COLUMNS);
    NoNames();
    if i.selectAll {
      ReadsOne(ts, 1, Key(Star));
    } else {
      FirstName(ts, i.selectCols);
      NamesBack(ts, 1, [], i.selectCols);
      assert [] + Shorts(i.selectCols) == Shorts(i.selectCols);
    }
    SelectEval(ts, 1 + |list|, cols, i.table);
    var before := Blank().(statement := SelectRows, selectAll := i.selectAll, selectCols := cols, table := Short(i.table));
    WhereBack(ts, 3 + |list|, before, i.where, sign);
    NothingClipped();
  }

  lemma InsertHeadEval(ts: seq<Token>, table: string)
    requires |ts| > 5 && ts[1].kind == Into && Fits(ts[2], Named(table)) && ts[3].kind == Values && ts[4].kind == LParen
    ensures InsertHead(ts, 1, Blank()) == Outcome(true, 5, Blank().(statement := InsertRows, table := Short(table)))
  {
    CopyIsFirst(table);
    hide Copy, Short;
  }

  lemma InsertEval(ts: seq<Token>, i: Intent, values: seq<string>, p: nat)
    requires p < |ts| && ts[0].kind == Insert && ts[p].kind == RParen && i.values == [] && InsertHead(ts, 1, Blank()) == Outcome(true, 5, i)
    requires Ends(ts, 5, InValues) && ValueLoop(ts, 5, []) == (p, values)
    ensures Terminates(ts) && ParseTokens(ts) == Outcome(true, p + 1, i.(values := values))
  {
    hide InsertHead, ValueLoop, Ends;
  }

  lemma InsertPieces(i: Intent, sign: bool)
    requires i.statement == InsertRows
    ensures PiecesOf(i, sign)
         == [Key(Insert), Key(Into), Named(i.table)] + ([Key(Values), Key(LParen)] + (ValuePieces(i.values) + [Key(RParen)]))
  {
    hide ValuePieces;
  }

  lemma InsertBack(ts: seq<Token>, i: Intent, sign: bool)
    requires Says(ts, i, sign) && i.statement == InsertRows
    ensures ReadsBack(ts, Clip(i))
  {
    hide ReadsAt, ValuePieces, ShortValues, Short, Terminates, ParseTokens, ValueLoop, Ends, InsertHead, ValuesAmong, PiecesOf, WellFormed, Clip;
    var head, mid, list := [Key(Insert), Key(Into), Named(i.table)], [Key(Values), Key(LParen)], ValuePieces(i.values);
    InsertPieces(i, sign);
    ReadsSplit(ts, 0, head, mid + (list + [Key(RParen)]));
    ReadsThree(ts, 0, Key(Insert), Key(Into), Named(i.table));
    ReadsSplit(ts, 3, mid, list + [Key(RParen)]);
    ReadsTwo(ts, 3, Key(Values), Key(LParen));
    ReadsSplit(ts, 5, list, [Key(RParen)]);
    var p := 5 + |list|;
    ReadsOne(ts, p, Key(RParen));
    ValuesRead(ts, 5, i.values);
    ValueLoopTakes(ts, 5, p, []);
    assert [] + ShortValues(i.values) == ShortValues(i.values);
    InsertHeadEval(ts, i.table);
    InsertEval(ts, Blank().(statement := InsertRows, table := Short(i.table)), First(ShortValues(i.values), MAX_VALUES), p);
    InsertClipped(i);
  }

  lemma InsertClipped(i: Intent)
    requires WellFormed(i) && i.statement == InsertRows
    ensures Clip(i) == Blank().(statement := InsertRows, table := Short(i.table), values := First(ShortValues(i.values), MAX_VALUES))
  {
    NothingClipped();
    hide ShortValues;
  }

  lemma UpdateClauses(ts: seq<Token>, table: string, column: string, value: string, sign: bool)
    requires var p := if sign then 5 else 4;
             && p + 1 < |ts| && Fits(ts[1], Named(table)) && ts[2].kind == Set && Fits(ts[3], Named(column)) && Fits(ts[p], Plain(value))
             && (sign ==> ts[4].kind == Equals)
    ensures UpdateAt(ts, 1, Blank())
         == WhereAt(ts, if sign then 6 else 5,
                    Blank().(statement := UpdateRows, table := Copy(table, MAX_NAME_LEN), setColumn := Copy(column, MAX_NAME_LEN),
                             setValue := Copy(value, MAX_VALUE_LEN)))
  {
    hide Copy, WhereAt;
  }

  lemma UpdateEval(ts: seq<Token>, table: string, column: string, value: string, sign: bool)
    requires var p := if sign then 5 else 4;
             && p + 1 < |ts| && Fits(ts[1], Named(table)) && ts[2].kind == Set && Fits(ts[3], Named(column)) && Fits(ts[p], Plain(value))
             && (sign ==> ts[4].kind == Equals) && ts[0].kind == Update
    ensures Terminates(ts)
    ensures ParseTokens(ts)
         == WhereAt(ts, if sign then 6 else 5,
                    Blank().(statement := UpdateRows, table := Short(table), setColumn := Short(column), setValue := ShortValue(value)))
  {
    UpdateClauses(ts, table, column, value, sign);
    CopyIsFirst(table);
    CopyIsFirst(column);
    CopyIsFirst(value);
    hide Copy, WhereAt, UpdateAt, Short, ShortValue;
  }

  lemma UpdateBack(ts: seq<Token>, i: Intent, sign: bool)
    requires Says(ts, i, sign) && i.statement == UpdateRows
    ensures ReadsBack(ts, Clip(i))
  {
    hide ReadsAt, WherePieces, Short, ShortValue, WhereAt, Terminates, ParseTokens;
    var head, eq, where := [Key(Update), Named(i.table), Key(Set), Named(i.setColumn)], EqualsPieces(sign), WherePieces(i.where, sign);
    assert PiecesOf(i, sign) == head + (eq + ([Plain(i.setValue)] + where));
    hide PiecesOf;
    ReadsSplit(ts, 0, head, eq + ([Plain(i.setValue)] + where));
    ReadsFour(ts, 0, Key(Update), Named(i.table), Key(Set), Named(i.setColumn));
    ReadsSplit(ts, 4, eq, [Plain(i.setValue)] + where);
    if sign {
      ReadsOne(ts, 4, Key(Equals));
    }
    ReadsSplit(ts, 4 + |eq|, [Plain(i.setValue)], where);
    ReadsOne(ts, 4 + |eq|, Plain(i.setValue));
    UpdateEval(ts, i.table, i.setColumn, i.setValue, sign);
    var before := Blank().(statement := UpdateRows, table := Short(i.table), setColumn := Short(i.setColumn), setValue := ShortValue(i.setValue));
    WhereBack(ts, 5 + |eq|, before, i.where, sign);
    NothingClipped();
  }

  lemma DeleteEval(ts: seq<Token>, table: string)
    requires |ts| > 3 && ts[0].kind == Delete && ts[1].kind == From && Fits(ts[2], Named(table))
    ensures Terminates(ts)
    ensures ParseTokens(ts) == WhereAt(ts, 3, Blank().(statement := DeleteRows, table := Short(table)))
  {
    CopyIsFirst(table);
    hide Copy, WhereAt, Short;
  }

  lemma DeleteBack(ts: seq<Token>, i: Intent, sign: bool)
    requires Says(ts, i, sign) && i.statement == DeleteRows
    ensures ReadsBack(ts, Clip(i))
  {
    hide ReadsAt, WherePieces, Short, ShortValue, WhereAt, Terminates, ParseTokens;
    var head, where := [Key(Delete), Key(From), Named(i.table)], WherePieces(i.where, sign);
    assert PiecesOf(i, sign) == head + where;
    hide PiecesOf;
    ReadsSplit(ts, 0, head, where);
    ReadsThree(ts, 0, Key(Delete), Key(From), Named(i.table));
    DeleteEval(ts, i.table);
    WhereBack(ts, 3, Blank().(statement := DeleteRows, table := Short(i.table)), i.where, sign);
    NothingClipped();
  }

  lemma CreateHeadEval(ts: seq<Token>, table: string)
    requires |ts| > 4 && ts[1].kind == Table && Fits(ts[2], Named(table)) && ts[3].kind == LParen
    ensures CreateHead(ts, 1, Blank()) == Outcome(true, 4, Blank().(statement := CreateTable, table := Short(table)))
  {
    CopyIsFirst(table);
    hide Copy, Short;
  }

  lemma CreateEval(ts: seq<Token>, i: Intent, columns: seq<Column>, p: nat)
    requires 4 <= p < |ts| && ts[0].kind == Create && ts[1].kind == Table && ts[p].kind == RParen
    requires i.columns == [] && CreateHead(ts, 1, Blank()) == Outcome(true, 4, i)
    requires Ends(ts, 4, InColumns) && ColumnLoop(ts, 4, []) == (p, columns)
    ensures Terminates(ts) && ParseTokens(ts) == Outcome(true, p + 1, i.(columns := columns))
  {
    hide CreateHead, ColumnLoop, Ends, Upper;
  }

  lemma CreatePieces(i: Intent, sign: bool)
    requires i.statement == CreateTable
    ensures PiecesOf(i, sign) == [Key(Create), Key(Table), Named(i.table), Key(LParen)] + (ColumnPieces(i.columns) + [Key(RParen)])
  {
    hide ColumnPieces;
  }

  lemma CreateBack(ts: seq<Token>, i: Intent, sign: bool)
    requires Says(ts, i, sign) && i.statement == CreateTable
    ensures ReadsBack(ts, Clip(i))
  {
    hide ReadsAt, ColumnPieces, ShortColumns, Short, Terminates, ParseTokens, ColumnLoop, Ends, CreateHead, PiecesOf;
    var head, list := [Key(Create), Key(Table), Named(i.table), Key(LParen)], ColumnPieces(i.columns);
    CreatePieces(i, sign);
    ReadsSplit(ts, 0, head, list + [Key(RParen)]);
    ReadsFour(ts, 0, Key(Create), Key(Table), Named(i.table), Key(LParen));
    ReadsSplit(ts, 4, list, [Key(RParen)]);
    var p := 4 + |list|;
    ReadsOne(ts, p, Key(RParen));
    ColumnsBack(ts, 4, [], i.columns);
    assert [] + ShortColumns(i.columns) == ShortColumns(i.columns);
    CreateHeadEval(ts, i.table);
    CreateEval(ts, Blank().(statement := CreateTable, table := Short(i.table)), First(ShortColumns(i.columns), MAX_COLUMNS), p);
    NothingClipped();
  }

  lemma DatabaseAt(ts: seq<Token>, name: string)
    requires |ts| > 3 && ts[1].kind == Ident && Upper(ts[1].value) == "DATABASE" && Fits(ts[2], Named(name))
    ensures CreateAt(ts, 1, Blank()) == Outcome(true, 3, Blank().(statement := CreateDb, dbName := Copy(name, MAX_NAME_LEN)))
  {
    hide Copy, Upper, CreateHead, Ends, ColumnLoop;
  }

  lemma DatabaseEval(ts: seq<Token>, name: string)
    requires |ts| > 3 && ts[0].kind == Create && Fits(ts[1], Spelled("DATABASE")) && Fits(ts[2], Named(name))
    ensures Terminates(ts) && ParseTokens(ts) == Outcome(true, 3, Blank().(statement := CreateDb, dbName := Short(name)))
  {
    assert Capital("DATABASE");
    UpperIs(ts[1].value, "DATABASE");
    CopyIsFirst(name);
    hide Copy, Short, Upper, SameLetters, CreateHead, Ends, ColumnLoop, CreateAt;
    DatabaseAt(ts, name);
  }

  lemma DropEval(ts: seq<Token>, name: string)
    requires |ts| > 3 && ts[0].kind == Drop && ts[1].kind == Table && Fits(ts[2], Named(name))
    ensures Terminates(ts) && ParseTokens(ts) == Outcome(true, 3, Blank().(statement := DropTable, table := Short(name)))
  {
    CopyIsFirst(name);
    hide Copy, Short;
  }

  lemma UseEval(ts: seq<Token>, name: string)
    requires |ts| > 2 && ts[0].kind == Use && Fits(ts[1], Named(name))
    ensures Terminates(ts) && ParseTokens(ts) == Outcome(true, 2, Blank().(statement := UseDb, dbName := Short(name)))
  {
    CopyIsFirst(name);
    hide Copy, Short;
  }

  lemma NamedBack(ts: seq<Token>, i: Intent, sign: bool)
    requires Says(ts, i, sign) && i.statement in {DropTable, CreateDb, UseDb}
    ensures ReadsBack(ts, Clip(i))
  {
    hide ReadsAt, Short, Terminates, ParseTokens;
    NothingClipped();
    match i.statement {
      case DropTable =>
        ReadsThree(ts, 0, Key(Drop), Key(Table), Named(i.table));
        DropEval(ts, i.table);
      case CreateDb =>
        ReadsThree(ts, 0, Key(Create), Spelled("DATABASE"), Named(i.dbName));
        DatabaseEval(ts, i.dbName);
      case UseDb =>
        ReadsTwo(ts, 0, Key(Use), Named(i.dbName));
        UseEval(ts, i.dbName);
    }
  }

  lemma MarkBack(ts: seq<Token>, i: Intent, sign: bool)
    requires Says(ts, i, sign) && i.statement in {BeginTxn, CommitTxn}
    ensures ReadsBack(ts, Clip(i))
  {
    hide ReadsAt, SelectAt, InsertAt, UpdateAt, DeleteAt, CreateAt, DropAt, UseAt, InsertHead, CreateHead, Ends;
    ReadsOne(ts, 0, if i.statement == BeginTxn then Key(Begin) else Key(Commit));
    NothingClipped();
  }

  /** Any tokens that say a statement are read back as that statement, with over-long names, values and
      lists cut. */
  lemma ParseBack(ts: seq<Token>, i: Intent, sign: bool)
    requires Says(ts, i, sign)
    ensures ReadsBack(ts, Clip(i))
  {
    SaysSomething(ts, i, sign);
    hide ReadsBack, Says, Clip;
    match i.statement {
      case SelectRows => SelectBack(ts, i, sign);
      case InsertRows => InsertBack(ts, i, sign);
      case UpdateRows => UpdateBack(ts, i, sign);
      case DeleteRows => DeleteBack(ts, i, sign);
      case CreateTable => CreateBack(ts, i, sign);
      case DropTable | CreateDb | UseDb => NamedBack(ts, i, sign);
      case BeginTxn | CommitTxn => MarkBack(ts, i, sign);
    }
  }

  lemma SaysSomething(ts: seq<Token>, i: Intent, sign: bool)
    requires Says(ts, i, sign)
    ensures i.statement != UnknownStatement
  {
    hide ReadsAt, PiecesOf;
  }

  /** Every way of writing a statement down survives its text: keywords in any mix of cases, values as
      numbers, as words or in quotes, with or without the sign before a value, with any gaps that keep
      the tokens apart, with or without a semicolon and more behind it, as long as the statement is among
      the first 128 tokens.  Tokenising and parsing ends, succeeds and gives the statement. */
  lemma RoundTrip(i: Intent, sign: bool, ts: seq<Token>, gaps: seq<string>, tail: string)
    requires AllPrintable(ts) && Spaced(ts, gaps) && (|tail| == 0 || tail[0] == END)
    requires Says(First(ts + [Token(Eof, "")], MAX_TOKENS), i, sign)
    ensures ReadsBack(Tokens(Written(ts, gaps) + tail), Clip(i))
  {
    hide Lex, Says, ReadsBack, AllPrintable, Spaced, Clip;
    LexWritten(ts, gaps, tail);
    ParseBack(First(ts + [Token(Eof, "")], MAX_TOKENS), i, sign);
  }

  /** A statement within the limits is not cut. */
  lemma ClipKeeps(i: Intent)
    requires |i.table| < MAX_NAME_LEN && |i.dbName| < MAX_NAME_LEN && |i.setColumn| < MAX_NAME_LEN && |i.setValue| < MAX_VALUE_LEN
    requires |i.where.column| < MAX_NAME_LEN && |i.where.value| < MAX_VALUE_LEN
    requires |i.selectCols| <= MAX_COLUMNS && forall k :: 0 <= k < |i.selectCols| ==> |i.selectCols[k]| < MAX_NAME_LEN
    requires |i.values| <= MAX_VALUES && forall k :: 0 <= k < |i.values| ==> |i.values[k]| < MAX_VALUE_LEN
    requires |i.columns| <= MAX_COLUMNS
    requires forall k :: 0 <= k < |i.columns| ==> |i.columns[k].name| < MAX_NAME_LEN && |i.columns[k].type_| < MAX_NAME_LEN
    ensures Clip(i) == i
  {
    assert Shorts(i.selectCols) == i.selectCols;
    assert ShortValues(i.values) == i.values;
    assert ShortColumns(i.columns) == i.columns;
  }
}
