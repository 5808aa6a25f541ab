/** Rows as text: fields joined with bars, split again as strtok does, and rewritten by UPDATE. */
module RowCodec {
  import opened Bytes

  const BAR: Byte := 124
  const ROW_SIZE: nat := 4096

  type Field = seq<Byte>

  /** A field that survives strtok and ends nowhere in between: not empty, no bar, no terminator. */
  predicate Plain(f: Field) {
    |f| > 0 && forall i :: 0 <= i < |f| ==> f[i] != BAR && f[i] != 0
  }

  ghost predicate AllPlain(fs: seq<Field>) {
    forall i :: 0 <= i < |fs| ==> Plain(fs[i])
  }

  function Join(fs: seq<Field>): seq<Byte> {
    if |fs| == 0 then []
    else if |fs| == 1 then fs[0]
    else fs[0] + [BAR] + Join(fs[1..])
  }

  /** How far the first field of `s` reaches. */
  function FieldLength(s: seq<Byte>): (n: nat)
    ensures n <= |s|
  {
    if |s| == 0 || s[0] == BAR then 0 else 1 + FieldLength(s[1..])
  }

  /** The fields that repeated strtok calls find: runs of anything but bars. */
  function Split(s: seq<Byte>): seq<Field>
    decreases |s|
  {
    if |s| == 0 then []
    else if s[0] == BAR then Split(s[1..])
    else [s[..FieldLength(s)]] + Split(s[FieldLength(s)..])
  }

  lemma {:induction false} FieldStops(f: Field, rest: seq<Byte>)
    requires (forall i :: 0 <= i < |f| ==> f[i] != BAR) && (|rest| > 0 ==> rest[0] == BAR)
    ensures FieldLength(f + rest) == |f|
  {
    if |f| == 0 {
      assert f + rest == rest;
    } else {
      FieldStops(f[1..], rest);
      assert (f + rest)[1..] == f[1..] + rest;
    }
  }

  /** A field that strtok can find: not empty and without bar. */
  predicate Solid(f: Field) {
    |f| > 0 && forall i :: 0 <= i < |f| ==> f[i] != BAR
  }

  ghost predicate AllSolid(fs: seq<Field>) {
    forall i :: 0 <= i < |fs| ==> Solid(fs[i])
  }

  lemma {:induction false} FieldHasNoBar(s: seq<Byte>, i: nat)
    requires i < FieldLength(s)
    ensures s[i] != BAR
  {
    if i > 0 {
      FieldHasNoBar(s[1..], i - 1);
    }
  }

  lemma {:induction false} SplitSolid(s: seq<Byte>)
    ensures AllSolid(Split(s))
    decreases |s|
  {
    if |s| > 0 {
      if s[0] == BAR {
        SplitSolid(s[1..]);
      } else {
        var n := FieldLength(s);
        forall i | 0 <= i < n ensures s[..n][i] != BAR {
          FieldHasNoBar(s, i);
        }
        assert Solid(s[..n]);
        SplitSolid(s[n..]);
      }
    }
  }

  /** Joining and splitting gives back the fields exactly when none is empty or holds a bar; the
      dispatcher accepts others. */
  lemma {:induction false} SplitJoinExactly(fs: seq<Field>)
    ensures Split(Join(fs)) == fs <==> AllSolid(fs)
  {
    SplitSolid(Join(fs));
    if AllSolid(fs) {
      SolidSplits(fs);
    }
  }

  lemma {:induction false} SolidSplits(fs: seq<Field>)
    requires AllSolid(fs)
    ensures Split(Join(fs)) == fs
  {
    if |fs| > 0 {
      assert Solid(fs[0]);
      SolidSplits(fs[1..]);
      var rest := if |fs| == 1 then [] else [BAR] + Join(fs[1..]);
      var s := fs[0] + rest;
      assert Join(fs) == s;
      FieldStops(fs[0], rest);
      assert s[..|fs[0]|] == fs[0] && s[|fs[0]|..] == rest;
      assert |fs| > 1 ==> rest[1..] == Join(fs[1..]);
    }
  }

  // ---------------------------------------------------------------- serialise_row

  /** The text after `i` rounds of serialise_row. */
  function Written(fs: seq<Field>, i: nat): seq<Byte>
    requires i <= |fs|
  {
    if i == 0 then [] else Written(fs, i - 1) + fs[i - 1] + if i < |fs| then [BAR] else []
  }

  lemma JoinTail(fs: seq<Field>, i: nat)
    requires i < |fs|
    ensures Join(fs[i..]) == fs[i] + (if i + 1 < |fs| then [BAR] else []) + Join(fs[i + 1..])
  {
    assert fs[i..][1..] == fs[i + 1..];
  }

  lemma {:induction false} WrittenRest(fs: seq<Field>, i: nat)
    requires i <= |fs|
    ensures Join(fs) == Written(fs, i) + Join(fs[i..])
    decreases i
  {
    hide Join;
    if i == 0 {
      assert fs[0..] == fs;
    } else {
      WrittenRest(fs, i - 1);
      JoinTail(fs, i - 1);
    }
  }

  method PutField(buf: array<Byte>, pos: nat, f: Field)
    requires pos + |f| <= buf.Length
    modifies buf
    ensures buf[..pos + |f|] == old(buf[..pos]) + f
  {
    forall i | 0 <= i < |f| {
      buf[pos + i] := f[i];
    }
  }

  /** serialise_row, for rows that fit the buffer with their terminator. */
  method SerialiseRow(values: seq<Field>, buf: array<Byte>) returns (len: nat)
    requires buf.Length == ROW_SIZE && |Join(values)| < ROW_SIZE
    modifies buf
    ensures len == |Join(values)| + 1 && buf[..len] == Join(values) + [0]
  {
    var pos := 0;
    var i := 0;
    while i < |values|
      invariant 0 <= i <= |values| && 0 <= pos <= |Join(values)| && buf[..pos] == Written(values, i)
    {
      WrittenRest(values, i + 1);
      ghost var before := buf[..pos];
      PutField(buf, pos, values[i]);
      pos := pos + |values[i]|;
      if i < |values| - 1 && pos < ROW_SIZE - 1 {
        buf[pos] := BAR;
        pos := pos + 1;
        assert buf[..pos] == before + values[i] + [BAR];
      }
      i := i + 1;
    }
    WrittenRest(values, i);
    buf[pos] := 0;
    len := pos + 1;
  }

  // ---------------------------------------------------------------- the row that UPDATE writes

  /** The text of a buffer up to its first terminator. */
  function Text(s: seq<Byte>): (t: seq<Byte>)
    ensures |t| <= |s|
  {
    if |s| == 0 || s[0] == 0 then [] else [s[0]] + Text(s[1..])
  }

  /** The text that table_update splits: its row buffer is as long as a page, page_read overwrites only
      the start of it, and the last byte of the copy is a terminator. */
  function BufferText(buf: seq<Byte>): seq<Byte>
    requires |buf| == ROW_SIZE
  {
    Text(buf[..ROW_SIZE - 1])
  }

  lemma {:induction false} TextOf(s: seq<Byte>, rest: seq<Byte>)
    requires forall i :: 0 <= i < |s| ==> s[i] != 0
    ensures Text(s + rest) == s + Text(rest)
  {
    if |s| == 0 {
      assert s + rest == rest && s + Text(rest) == Text(rest);
    } else {
      TextOf(s[1..], rest);
      assert (s + rest)[1..] == s[1..] + rest;
      assert s == [s[0]] + s[1..];
    }
  }

  function Replaced(fs: seq<Field>, col: nat, value: Field): seq<Field> {
    if col < |fs| then fs[col := value] else fs
  }

  /** strtok's skipping of bars. */
  method SkipBars(s: seq<Byte>, from: nat) returns (start: nat)
    requires from <= |s|
    ensures from <= start <= |s| && Split(s[start..]) == Split(s[from..]) && (start < |s| ==> s[start] != BAR)
  {
    start := from;
    while start < |s| && s[start] == BAR
      invariant from <= start <= |s| && Split(s[start..]) == Split(s[from..])
    {
      assert s[start..][1..] == s[start + 1..];
      start := start + 1;
    }
  }

  /** strtok's search for the end of a field. */
  method FieldEnd(s: seq<Byte>, start: nat) returns (end: nat)
    requires start <= |s|
    ensures end == start + FieldLength(s[start..]) <= |s|
  {
    end := start;
    while end < |s| && s[end] != BAR
      invariant start <= end <= |s| && FieldLength(s[start..]) == end - start + FieldLength(s[end..])
    {
      assert s[end..][1..] == s[end + 1..];
      end := end + 1;
    }
  }

  /** The next field, as the next strtok call finds it: where it starts and ends. */
  method NextField(s: seq<Byte>, from: nat) returns (start: nat, end: nat)
    requires from <= |s|
    ensures from <= start <= end <= |s| && (start < |s| ==> start < end)
    ensures Split(s[from..]) == if start == |s| then [] else [s[start..end]] + Split(s[end..])
  {
    start := SkipBars(s, from);
    end := FieldEnd(s, start);
    assert s[start..][..end - start] == s[start..end] && s[start..][end - start..] == s[end..];
  }

  /** The split-and-rejoin loop of table_update, when the new row fits its buffer. */
  method RewriteRow(buf: seq<Byte>, col: nat, value: Field) returns (newRow: seq<Byte>)
    requires |buf| == ROW_SIZE && |Join(Replaced(Split(BufferText(buf)), col, value))| < ROW_SIZE
    ensures newRow == Join(Replaced(Split(BufferText(buf)), col, value)) + [0]
    ensures Solid(value) ==> Rewritten(Split(BufferText(buf)), Split(newRow[..|newRow| - 1]), col, value)
  {
    var s := BufferText(buf);
    ghost var fs := Split(s);
    newRow := [];
    var ci := 0;
    assert s[0..] == s && fs[0..] == fs && fs[..0] == [];
    var start, end := NextField(s, 0);
    while start < |s|
      invariant start <= end <= |s| && (start < |s| ==> start < end) && ci <= |fs|
      invariant if start < |s| then [s[start..end]] + Split(s[end..]) == fs[ci..] else fs[ci..] == []
      invariant newRow == Join(Replaced(fs, col, value)[..ci])
      decreases |s| - start, end
    {
      var replaced := Replaced(fs, col, value);
      assert fs[ci] == fs[ci..][0] == s[start..end];
      if ci > 0 {
        newRow := newRow + [BAR];
      }
      newRow := newRow + if ci == col then value else s[start..end];
      JoinMore(replaced[..ci], replaced[ci]);
      assert replaced[..ci + 1] == replaced[..ci] + [replaced[ci]];
      assert fs[ci + 1..] == fs[ci..][1..] == Split(s[end..]);
      start, end := NextField(s, end);
      ci := ci + 1;
    }
    assert Replaced(fs, col, value)[..ci] == Replaced(fs, col, value);
    newRow := newRow + [0];
    RewriteFields(s, col, value);
    assert newRow[..|newRow| - 1] == Join(Replaced(fs, col, value));
  }

  /** Field for field: `gs` is `fs` with field `col`, if there is one, replaced. */
  predicate Rewritten(fs: seq<Field>, gs: seq<Field>, col: nat, value: Field) {
    |gs| == |fs| && forall i :: 0 <= i < |fs| ==> gs[i] == if i == col then value else fs[i]
  }

  /** Splitting what UPDATE writes gives the fields of what it read, with the value in the place of field
      `col`; a row that has no such field keeps its fields. */
  lemma RewriteFields(text: seq<Byte>, col: nat, value: Field)
    ensures Solid(value) ==> Rewritten(Split(text), Split(Join(Replaced(Split(text), col, value))), col, value)
  {
    hide Split, Join, Solid;
    SplitSolid(text);
    var gs := Replaced(Split(text), col, value);
    if Solid(value) {
      assert forall i :: 0 <= i < |gs| ==> gs[i] == value || gs[i] == Split(text)[i];
      SolidSplits(gs);
    }
  }

  lemma {:induction false} JoinMore(fs: seq<Field>, f: Field)
    ensures Join(fs + [f]) == Join(fs) + (if |fs| > 0 then [BAR] else []) + f
  {
    if |fs| == 0 {
      assert fs + [f] == [f];
    } else if |fs| == 1 {
      assert (fs + [f])[1..] == [f];
    } else {
      JoinMore(fs[1..], f);
      assert (fs + [f])[1..] == fs[1..] + [f];
    }
  }

  lemma {:induction false} PlainJoin(fs: seq<Field>)
    requires AllPlain(fs)
    ensures forall i :: 0 <= i < |Join(fs)| ==> Join(fs)[i] != 0
  {
    if |fs| > 0 {
      assert Plain(fs[0]);
      PlainJoin(fs[1..]);
    }
  }

  // ---------------------------------------------------------------- what stale bytes do to it

  predicate OnlyBars(s: seq<Byte>) {
    forall i :: 0 <= i < |s| ==> s[i] == BAR
  }

  lemma {:induction false} NoFields(s: seq<Byte>)
    ensures Split(s) == [] <==> OnlyBars(s)
  {
    if |s| > 0 && s[0] == BAR {
      NoFields(s[1..]);
      assert s == [s[0]] + s[1..];
    }
  }

  lemma {:induction false} LongerField(f: Field, u: seq<Byte>)
    requires forall i :: 0 <= i < |f| ==> f[i] != BAR
    ensures FieldLength(f + u) == |f| + FieldLength(u)
  {
    if |f| == 0 {
      assert f + u == u;
    } else {
      LongerField(f[1..], u);
      assert (f + u)[1..] == f[1..] + u;
    }
  }

  /** The fields of a row whose text runs on into `u`: the last field grows, others may follow. */
  function Overrun(fs: seq<Field>, u: seq<Byte>): seq<Field>
    requires |fs| > 0
  {
    var n, m := |fs| - 1, FieldLength(u);
    fs[..n] + [fs[n] + u[..m]] + Split(u[m..])
  }

  /** The row ends in a bar, or is empty, so that what follows starts a field of its own. */
  predicate Closed(s: seq<Byte>) {
    |s| == 0 || s[|s| - 1] == BAR
  }

  lemma SplitSkip(s: seq<Byte>)
    requires |s| > 0 && s[0] == BAR
    ensures Split(s) == Split(s[1..])
  {
  }

  lemma SplitTake(f: Field, rest: seq<Byte>)
    requires Solid(f) && (|rest| > 0 ==> rest[0] == BAR)
    ensures Split(f + rest) == [f] + Split(rest)
  {
    hide FieldLength;
    FieldStops(f, rest);
    assert (f + rest)[..|f|] == f && (f + rest)[|f|..] == rest;
  }

  lemma SplitLast(f: Field, u: seq<Byte>)
    requires Solid(f)
    ensures Split(f + u) == [f + u[..FieldLength(u)]] + Split(u[FieldLength(u)..])
  {
    hide FieldLength;
    var s, n := f + u, |f| + FieldLength(u);
    LongerField(f, u);
    assert s[0] != BAR;
    assert s[..n] == f + u[..FieldLength(u)] && s[n..] == u[FieldLength(u)..];
  }

  lemma OverrunFirst(fs: seq<Field>, u: seq<Byte>)
    requires |fs| > 1
    ensures Overrun(fs, u) == [fs[0]] + Overrun(fs[1..], u)
  {
    hide Split;
    var n := |fs| - 1;
    assert fs[..n] == [fs[0]] + fs[1..][..n - 1];
  }

  /** The first field of a row that does not start with a bar, and what follows it. */
  lemma FirstField(s: seq<Byte>)
    requires |s| > 0 && s[0] != BAR
    ensures var n := FieldLength(s);
            n > 0 && Solid(s[..n]) && (n < |s| ==> s[n] == BAR) && s == s[..n] + s[n..]
  {
    var n := FieldLength(s);
    forall i | 0 <= i < n ensures s[..n][i] != BAR {
      FieldHasNoBar(s, i);
    }
    FieldEnds(s);
  }

  lemma {:induction false} FieldEnds(s: seq<Byte>)
    ensures FieldLength(s) < |s| ==> s[FieldLength(s)] == BAR
  {
    if |s| > 0 && s[0] != BAR {
      FieldEnds(s[1..]);
    }
  }

  /** What strtok finds in any row that runs on into `u`. */
  lemma {:induction false} SplitOverrun(s: seq<Byte>, u: seq<Byte>)
    ensures Closed(s) ==> Split(s + u) == Split(s) + Split(u)
    ensures !Closed(s) ==> |Split(s)| > 0 && Split(s + u) == Overrun(Split(s), u)
    decreases |s|
  {
    hide Split, FieldLength;
    if |s| == 0 {
      assert s + u == u;
      NoFields(s);
    } else if s[0] == BAR {
      SplitOverrun(s[1..], u);
      SplitSkip(s);
      SplitSkip(s + u);
      assert (s + u)[1..] == s[1..] + u;
      assert Closed(s) <==> Closed(s[1..]);
    } else {
      FirstField(s);
      var n := FieldLength(s);
      var f, rest := s[..n], s[n..];
      SplitTake(f, rest);
      if |rest| == 0 {
        NoFields(rest);
        assert s == f && s[|s| - 1] == f[|f| - 1] != BAR;
        SplitLast(f, u);
        assert Split(s) == [f] && [f][..0] == [];
      } else {
        SplitOverrun(rest, u);
        SplitTake(f, rest + u);
        assert s + u == f + (rest + u);
        assert s[|s| - 1] == rest[|rest| - 1];
        if !Closed(s) {
          OverrunFirst(Split(s), u);
        }
      }
    }
  }

  /** The length of a row with one bar after every field. */
  function Size(fs: seq<Field>): nat {
    if |fs| == 0 then 0 else |fs[0]| + 1 + Size(fs[1..])
  }

  lemma {:induction false} JoinSize(fs: seq<Field>)
    requires |fs| > 0
    ensures |Join(fs)| + 1 == Size(fs) && Size(fs) >= |fs|
  {
    if |fs| > 1 {
      JoinSize(fs[1..]);
    }
  }

  lemma {:induction false} SizeConcat(a: seq<Field>, b: seq<Field>)
    ensures Size(a + b) == Size(a) + Size(b)
  {
    if |a| == 0 {
      assert a + b == b;
    } else {
      SizeConcat(a[1..], b);
      assert (a + b)[1..] == a[1..] + b;
    }
  }

  lemma {:induction false} SizeUpdate(fs: seq<Field>, i: nat, f: Field)
    requires i < |fs|
    ensures Size(fs[i := f]) + |fs[i]| == Size(fs) + |f|
  {
    if i == 0 {
      assert fs[0 := f][1..] == fs[1..];
    } else {
      SizeUpdate(fs[1..], i - 1, f);
      assert fs[i := f][1..] == fs[1..][i - 1 := f];
    }
  }

  lemma OverrunSize(fs: seq<Field>, u: seq<Byte>)
    requires |fs| > 0
    ensures Size(Overrun(fs, u)) == Size(fs) + FieldLength(u) + Size(Split(u[FieldLength(u)..]))
  {
    var n, m := |fs| - 1, FieldLength(u);
    var last := fs[n] + u[..m];
    SizeConcat(fs[..n] + [last], Split(u[m..]));
    SizeConcat(fs[..n], [last]);
    SizeConcat(fs[..n], [fs[n]]);
    assert fs[..n] + [fs[n]] == fs;
    assert Size([last]) == |last| + 1 && Size([fs[n]]) == |fs[n]| + 1;
  }

  /** When running on into `u` does not show: nothing but bars follows the last field, and that field
      either does not grow or is the one that is replaced. */
  predicate Harmless(n: nat, u: seq<Byte>, col: nat) {
    OnlyBars(u[FieldLength(u)..]) && (FieldLength(u) == 0 || col == n - 1)
  }

  lemma OverrunShows(fs: seq<Field>, u: seq<Byte>, col: nat, value: Field)
    requires col < |fs|
    ensures Join(Replaced(Overrun(fs, u), col, value)) == Join(fs[col := value]) <==> Harmless(|fs|, u, col)
  {
    var gs, m := Overrun(fs, u), FieldLength(u);
    var more := Split(u[m..]);
    NoFields(u[m..]);
    if Harmless(|fs|, u, col) {
      assert |gs| == |fs| && forall i :: 0 <= i < |fs| - 1 ==> gs[i] == fs[i];
      assert m == 0 ==> gs[|fs| - 1] == fs[|fs| - 1];
      assert gs[col := value] == fs[col := value];
    } else {
      OverrunSize(fs, u);
      SizeUpdate(gs, col, value);
      SizeUpdate(fs, col, value);
      JoinSize(gs[col := value]);
      JoinSize(fs[col := value]);
      assert more != [] ==> Size(more) > 0;
      assert |gs[col]| == |fs[col]| + if col == |fs| - 1 then m else 0;
    }
  }

  /** Whether the text `u` behind a row leaves no trace in it, told from the row's last byte and `u`. */
  predicate Benign(text: seq<Byte>, u: seq<Byte>, col: nat) {
    if Closed(text) then OnlyBars(u) else Harmless(|Split(text)|, u, col)
  }

  lemma MoreShows(fs: seq<Field>, more: seq<Field>, col: nat, value: Field)
    requires col < |fs|
    ensures Join(Replaced(fs + more, col, value)) == Join(fs[col := value]) <==> more == []
  {
    assert (fs + more)[col := value] == fs[col := value] + more;
    if more == [] {
      assert fs + more == fs;
    } else {
      SizeConcat(fs[col := value], more);
      JoinSize(fs[col := value] + more);
      JoinSize(fs[col := value]);
      JoinSize(more);
    }
  }

  lemma OverrunRewrites(text: seq<Byte>, u: seq<Byte>, col: nat, value: Field)
    requires col < |Split(text)|
    ensures Join(Replaced(Split(text + u), col, value)) == Join(Split(text)[col := value]) <==> Benign(text, u, col)
  {
    hide Split, FieldLength, Join, Size, Harmless;
    SplitOverrun(text, u);
    if Closed(text) {
      MoreShows(Split(text), Split(u), col, value);
      NoFields(u);
    } else {
      OverrunShows(Split(text), u, col, value);
    }
  }

  /** UPDATE turns a stored row, whatever its bytes, into the row of its fields with exactly one of them
      replaced if and only if the row carries a terminator, or the bytes that an earlier row left
      behind it in the buffer happen to be benign. */
  lemma RewriteReplacesField(text: seq<Byte>, terminated: bool, stale: seq<Byte>, col: nat, value: Field)
    requires (forall i :: 0 <= i < |text| ==> text[i] != 0) && col < |Split(text)| && |text| + 1 < ROW_SIZE
    requires |text + (if terminated then [0] else []) + stale| == ROW_SIZE
    ensures var row := text + if terminated then [0] else [];
            Join(Replaced(Split(BufferText(row + stale)), col, value)) == Join(Split(text)[col := value])
            <==> terminated || Benign(text, Text(stale[..|stale| - 1]), col)
  {
    hide Split, Join, Benign;
    var row := text + if terminated then [0] else [];
    var tail := (if terminated then [0] else []) + stale[..|stale| - 1];
    assert (row + stale)[..ROW_SIZE - 1] == text + tail;
    TextOf(text, tail);
    var u := Text(tail);
    if terminated {
      assert u == [] && text + u == text;
    } else {
      assert tail == stale[..|stale| - 1];
      OverrunRewrites(text, u, col, value);
    }
  }

  lemma PlainSplits(fs: seq<Field>)
    requires AllPlain(fs)
    ensures Split(Join(fs)) == fs
  {
    assert forall i :: 0 <= i < |fs| ==> Plain(fs[i]) && Solid(fs[i]);
    SolidSplits(fs);
  }

  /** A row that serialise_row wrote splits into its values again. */
  lemma SerialisedSplits(values: seq<Field>)
    requires AllPlain(values)
    ensures Split(Text(Join(values) + [0])) == values
  {
    PlainJoin(values);
    TextOf(Join(values), [0]);
    assert Join(values) + [] == Join(values);
    PlainSplits(values);
  }

  lemma BoAndIce(fs: seq<Field>, u: seq<Byte>)
    requires fs == [[50], [98, 111]] && u == [105, 99, 101] && FieldLength(u) == 3
    ensures Overrun(fs, u) == [[50], [98, 111, 105, 99, 101]]
  {
    assert fs[..1] == [[50]] && u[..3] == u && u[3..] == [];
    assert fs[1] + u == [98, 111, 105, 99, 101];
  }

  /** Rows that the dispatcher stores carry no terminator.  When `2|bo` is read into a buffer that still
      ends in `ice` from a longer row before it, setting the first column to 3 writes `3|boice`. */
  lemma StaleBytesLeakIn(stale: seq<Byte>)
    requires |stale| == ROW_SIZE - 4 && stale[0] == 105 && stale[1] == 99 && stale[2] == 101 && stale[3] == 0
    ensures Join([[50], [98, 111]]) == [50, BAR, 98, 111]
    ensures Join(Replaced(Split(BufferText([50, BAR, 98, 111] + stale)), 0, [51])) == [51, BAR, 98, 111, 105, 99, 101]
  {
    var fs: seq<Field> := [[50], [98, 111]];
    assert fs[1..] == [[98, 111]] && Join(fs) == [50, BAR, 98, 111];
    var u: seq<Byte> := [105, 99, 101];
    var tail := stale[..|stale| - 1];
    assert (Join(fs) + stale)[..ROW_SIZE - 1] == Join(fs) + tail;
    assert tail == u + tail[3..];
    TextOf(u, tail[3..]);
    assert u + [] == u;
    PlainJoin(fs);
    TextOf(Join(fs), tail);
    PlainSplits(fs);
    SplitOverrun(Join(fs), u);
    LongerField(u, []);
    BoAndIce(fs, u);
    var gs: seq<Field> := [[51], [98, 111, 105, 99, 101]];
    assert Replaced(Overrun(fs, u), 0, [51]) == gs && gs[1..] == [[98, 111, 105, 99, 101]];
  }
}
