/** Saving a run, and the exact condition under which the saved file reads back as the run. */
module ScoreboardSave {
  import opened Wrappers
  import opened Delimited
  import opened Scoreboard
  import opened ScoreboardText
  import Text

  // ------------------------------------------------------------------ sorting

  predicate IdAtMost(a: Id, b: Id) {
    a.0 < b.0 || (a.0 == b.0 && a.1 <= b.1)
  }

  ghost predicate SortedIds(s: seq<Id>) {
    forall i, j | 0 <= i < j < |s| :: IdAtMost(s[i], s[j])
  }

  /** By line, then by code. */
  lemma IdsAscend(s: seq<Id>)
    requires SortedIds(s)
    ensures forall i, j | 0 <= i < j < |s| :: s[i].0 <= s[j].0 && (s[i].0 == s[j].0 ==> s[i].1 <= s[j].1)
  {
  }

  method SortIds(ids: seq<Id>) returns (r: seq<Id>)
    ensures SortedIds(r) && multiset(r) == multiset(ids)
  {
    r := [];
    for i := 0 to |ids|
      invariant SortedIds(r) && multiset(r) == multiset(ids[..i])
    {
      assert ids[..i + 1] == ids[..i] + [ids[i]];
      r := InsertId(r, ids[i]);
    }
    assert ids[..|ids|] == ids;
  }

  method InsertId(s: seq<Id>, x: Id) returns (r: seq<Id>)
    requires SortedIds(s)
    ensures SortedIds(r) && multiset(r) == multiset(s) + multiset{x}
  {
    var k := |s|;
    while k > 0 && !IdAtMost(s[k - 1], x)
      invariant 0 <= k <= |s| && forall j | k <= j < |s| :: IdAtMost(x, s[j])
    {
      k := k - 1;
    }
    InsertedIdsSorted(s, k, x);
    assert s == s[..k] + s[k..];
    r := s[..k] + [x] + s[k..];
  }

  lemma InsertedIdsSorted(s: seq<Id>, k: nat, x: Id)
    requires SortedIds(s) && k <= |s| && (k > 0 ==> IdAtMost(s[k - 1], x)) && forall j | k <= j < |s| :: IdAtMost(x, s[j])
    ensures SortedIds(s[..k] + [x] + s[k..])
  {
    forall i | 0 <= i < k ensures IdAtMost(s[i], x) {
      assert i < k - 1 ==> IdAtMost(s[i], s[k - 1]);
    }
  }

  ghost predicate SortedRows(rows: seq<TestResult>) {
    forall i, j | 0 <= i < j < |rows| :: Text.AtMost(rows[i].rel, rows[j].rel)
  }

  lemma {:induction false} LastWinsInsert(a: seq<TestResult>, x: TestResult, b: seq<TestResult>)
    requires forall i | 0 <= i < |b| :: b[i].rel != x.rel
    ensures LastWins(a + [x] + b) == LastWins(a + b)[x.rel := x]
  {
    hide LastWins;
    if b == [] {
      LastWinsPush(a, x);
      assert a + [x] + b == a + [x] && a + b == a;
    } else {
      var front, last := b[..|b| - 1], b[|b| - 1];
      LastWinsInsert(a, x, front);
      LastWinsPush(a + [x] + front, last);
      LastWinsPush(a + front, last);
      assert a + [x] + b == a + [x] + front + [last] && a + b == a + front + [last];
      var m := LastWins(a + front);
      assert m[x.rel := x][last.rel := last] == m[last.rel := last][x.rel := x];
    }
  }

  lemma LastWinsPush(s: seq<TestResult>, x: TestResult)
    ensures LastWins(s + [x]) == LastWins(s)[x.rel := x]
  {
    assert (s + [x])[..|s|] == s;
  }

  /** Stable: a row goes after those with the same path. */
  method InsertRow(rows: seq<TestResult>, x: TestResult) returns (r: seq<TestResult>)
    requires SortedRows(rows)
    ensures SortedRows(r) && multiset(r) == multiset(rows) + multiset{x} && LastWins(r) == LastWins(rows)[x.rel := x]
  {
    hide Text.AtMost, LastWins;
    var k := |rows|;
    while k > 0 && !Text.AtMost(rows[k - 1].rel, x.rel)
      invariant 0 <= k <= |rows|
      invariant forall j | k <= j < |rows| :: Text.AtMost(x.rel, rows[j].rel) && rows[j].rel != x.rel
    {
      k := k - 1;
      Text.Total(rows[k].rel, x.rel);
      Text.Reflexive(x.rel);
    }
    assert rows == rows[..k] + rows[k..];
    LastWinsInsert(rows[..k], x, rows[k..]);
    InsertedRowsSorted(rows, k, x);
    r := rows[..k] + [x] + rows[k..];
  }

  lemma InsertedRowsSorted(rows: seq<TestResult>, k: nat, x: TestResult)
    requires SortedRows(rows) && k <= |rows| && (k > 0 ==> Text.AtMost(rows[k - 1].rel, x.rel))
    requires forall j | k <= j < |rows| :: Text.AtMost(x.rel, rows[j].rel)
    ensures SortedRows(rows[..k] + [x] + rows[k..])
  {
    hide Text.AtMost;
    forall i | 0 <= i < k ensures Text.AtMost(rows[i].rel, x.rel) {
      if i < k - 1 {
        Text.Transitive(rows[i].rel, rows[k - 1].rel, x.rel);
      }
    }
  }

  method SortRows(results: seq<TestResult>) returns (rows: seq<TestResult>)
    ensures SortedRows(rows) && multiset(rows) == multiset(results) && LastWins(rows) == LastWins(results)
  {
    hide LastWins;
    rows := [];
    LastWinsEmpty();
    for i := 0 to |results|
      invariant SortedRows(rows) && multiset(rows) == multiset(results[..i]) && LastWins(rows) == LastWins(results[..i])
    {
      assert results[..i + 1] == results[..i] + [results[i]];
      LastWinsStep(results, i);
      rows := InsertRow(rows, results[i]);
    }
    assert results[..|results|] == results;
  }

  lemma LastWinsEmpty()
    ensures LastWins([]) == map[]
  {
  }

  lemma LastWinsStep(rows: seq<TestResult>, i: nat)
    requires i < |rows|
    ensures LastWins(rows[..i + 1]) == LastWins(rows[..i])[rows[i].rel := rows[i]]
  {
    assert rows[..i + 1][..i] == rows[..i];
  }

  // ------------------------------------------------------------------ writing

  /** The same row with its identities in writing order. */
  ghost predicate Tidied(r: TestResult, t: TestResult) {
    && t == r.(matched := t.matched, extra := t.extra, incomplete := t.incomplete)
    && multiset(t.matched) == multiset(r.matched) && multiset(t.extra) == multiset(r.extra)
    && multiset(t.incomplete) == multiset(r.incomplete)
  }

  lemma TidiedIsSame(r: TestResult, t: TestResult)
    requires Tidied(r, t)
    ensures Saved(t) == Saved(r) && (CleanRow(t) <==> CleanRow(r)) && (CleanBucket(t) <==> CleanBucket(r))
    ensures CheckedRow(t) <==> CheckedRow(r)
  {
    Text.SameLength(t.matched, r.matched);
    Text.SameLength(t.extra, r.extra);
    Text.SameLength(t.incomplete, r.incomplete);
    forall i | 0 <= i < |t.incomplete| ensures t.incomplete[i] in r.incomplete {
    }
    forall i | 0 <= i < |r.incomplete| ensures r.incomplete[i] in t.incomplete {
    }
  }

  /** Every surface id that would be written passes the shape check. */
  ghost predicate CheckedRow(r: TestResult) {
    r.bucket.Unsupported? ==> forall i | 0 <= i < |r.incomplete| :: PassesCheck(r.incomplete[i])
  }

  ghost predicate CheckedRows(rows: seq<TestResult>) {
    forall i | 0 <= i < |rows| :: CheckedRow(rows[i])
  }

  method TidyRow(r: TestResult) returns (t: TestResult)
    ensures Tidied(r, t) && IdentitiesInOrder(t)
  {
    var m := SortIds(r.matched);
    var f := SortIds(r.extra);
    var i := Text.Sort(r.incomplete);
    t := r.(matched := m, extra := f, incomplete := i);
  }

  ghost predicate AllTidied(rows: seq<TestResult>, tidy: seq<TestResult>) {
    |tidy| == |rows| && forall i | 0 <= i < |rows| :: Tidied(rows[i], tidy[i])
  }

  ghost predicate IdentitiesInOrder(t: TestResult) {
    SortedIds(t.matched) && SortedIds(t.extra) && Text.Sorted(t.incomplete)
  }

  /** Write the board: rows by path, identities in order; a malformed surface id is refused. */
  method WriteScoreboard(header: seq<string>, results: seq<TestResult>)
      returns (text: Option<string>, ghost rows: seq<TestResult>, ghost tidy: seq<TestResult>)
    ensures SortedRows(rows) && multiset(rows) == multiset(results) && LastWins(rows) == LastWins(results)
    ensures text.Some? <==> CheckedRows(results)
    ensures text.Some? ==> AllTidied(rows, tidy) && text == Some(BoardText(header, tidy))
    ensures text.Some? ==> forall i | 0 <= i < |tidy| :: IdentitiesInOrder(tidy[i])
  {
    hide RowText, PassesCheck, LastWins, SortedRows, Tidied, IdentitiesInOrder;
    var ordered := SortRows(results);
    rows, tidy := ordered, [];
    Text.SameLength(ordered, results);
    var lines: seq<string> := [];
    for i := 0 to |ordered|
      invariant CheckedRows(ordered[..i]) && AllTidied(ordered[..i], tidy) && lines == RowTexts(tidy)
      invariant forall k | 0 <= k < i :: IdentitiesInOrder(tidy[k])
    {
      assert ordered[..i + 1] == ordered[..i] + [ordered[i]];
      var r := ordered[i];
      if r.bucket.Unsupported? && !forall k | 0 <= k < |r.incomplete| :: PassesCheck(r.incomplete[k]) {
        assert r in results;
        var j :| 0 <= j < |results| && results[j] == r;
        return None, rows, tidy;
      }
      var t := TidyRow(r);
      tidy := tidy + [t];
      lines := lines + [RowText(t)];
    }
    assert ordered[..|ordered|] == ordered;
    forall j | 0 <= j < |results| ensures CheckedRow(results[j]) {
      assert results[j] in ordered;
      var k :| 0 <= k < |ordered| && ordered[k] == results[j];
    }
    text := Some(Terminated(header + lines));
  }

  // ------------------------------------------------------------------ exactness

  ghost predicate DistinctPaths(rows: seq<TestResult>) {
    forall i, j | 0 <= i < j < |rows| :: rows[i].rel != rows[j].rel
  }

  lemma {:induction false} LastWinsDistinct(rows: seq<TestResult>, k: nat)
    requires DistinctPaths(rows) && k < |rows|
    ensures rows[k].rel in LastWins(rows) && LastWins(rows)[rows[k].rel] == rows[k]
  {
    if k < |rows| - 1 {
      LastWinsDistinct(rows[..|rows| - 1], k);
    }
  }

  lemma {:induction false} LastWinsKeys(rows: seq<TestResult>, k: nat)
    requires k < |rows|
    ensures rows[k].rel in LastWins(rows)
  {
    if k < |rows| - 1 {
      LastWinsKeys(rows[..|rows| - 1], k);
    }
  }

  lemma {:induction false} ReadComesFromLine(lines: seq<string>, rel: string) returns (k: nat)
    requires ReadLines(lines).Some? && rel in ReadLines(lines).value
    ensures k < |lines| && ParseLine(lines[k]) == Row(rel, ReadLines(lines).value[rel])
  {
    hide ParseLine;
    var last := ParseLine(lines[|lines| - 1]);
    if last.Row? && last.rel == rel {
      k := |lines| - 1;
    } else {
      k := ReadComesFromLine(lines[..|lines| - 1], rel);
    }
  }

  lemma RowKeyIsClean(line: string)
    requires '\n' !in line && '\r' !in line && ParseLine(line).Row?
    ensures Clean(ParseLine(line).rel)
  {
    hide ParseIdField, ParseNum, Blank;
    SplitLacks(line, '\t', '\t');
    SplitLacks(line, '\t', '\n');
    SplitLacks(line, '\t', '\r');
    var parts := Split(line, '\t');
    assert ParseLine(line).rel == parts[|parts| - 1];
  }

  /** No key that is ever read holds a delimiter. */
  lemma KeysAreClean(text: string, rel: string)
    requires Read(text).Some? && rel in Read(text).value
    ensures Clean(rel)
  {
    hide ParseLine, ReadLines;
    var lines := Split(Normalize(text), '\n');
    var k := ReadComesFromLine(lines, rel);
    NormalizeLacks(text);
    SplitLacks(Normalize(text), '\n', '\n');
    SplitLacks(Normalize(text), '\n', '\r');
    RowKeyIsClean(lines[k]);
  }

  lemma {:induction false} PieceOfChunk(chunks: seq<string>, k: nat) returns (i: nat, p: nat)
    requires k < |Split(Terminated(chunks), '\n')|
    ensures Split(Terminated(chunks), '\n')[k] != [] ==>
              i < |chunks| && p < |Split(chunks[i], '\n')| && Split(chunks[i], '\n')[p] == Split(Terminated(chunks), '\n')[k]
    decreases |chunks|
  {
    i, p := 0, 0;
    if chunks != [] {
      var head := Split(chunks[0], '\n');
      SplitConcat(chunks[0], '\n', Terminated(chunks[1..]));
      if k < |head| {
        p := k;
      } else {
        i, p := PieceOfChunk(chunks[1..], k - |head|);
        i := i + 1;
      }
    }
  }

  lemma {:induction false} JoinHas(parts: seq<string>, sep: char, i: nat, c: char)
    requires i < |parts| && c in parts[i]
    ensures c in Join(parts, sep)
  {
    if |parts| > 1 && i > 0 {
      JoinHas(parts[1..], sep, i - 1, c);
    }
  }

  lemma CheckedChars(id: string)
    requires PassesCheck(id)
    ensures '\t' !in id && '\r' !in id && (Kebab(id) || '\n' in id)
  {
    hide Kebab;
    if Kebab(id) {
      KebabChars(id, '\t');
      KebabChars(id, '\r');
    } else {
      var front := id[..|id| - 1];
      KebabChars(front, '\t');
      KebabChars(front, '\r');
      assert id == front + [id[|id| - 1]];
    }
  }

  /** The identity column of a checked row holds no tab or carriage return, and a line feed if a surface
      id does. */
  lemma CheckedField(r: TestResult)
    requires CheckedRow(r) && r.bucket.Unsupported?
    ensures '\t' !in IdField(r) && '\r' !in IdField(r)
    ensures !(forall i | 0 <= i < |r.incomplete| :: Kebab(r.incomplete[i])) ==> '\n' in IdField(r)
  {
    hide Kebab, PassesCheck, FormatIds;
    forall i | 0 <= i < |r.incomplete| ensures '\t' !in r.incomplete[i] && '\r' !in r.incomplete[i] {
      CheckedChars(r.incomplete[i]);
    }
    var parts := [FormatIds(r.matched), FormatIds(r.extra), Join(r.incomplete, ',')];
    forall c | c in {'\t', '\r'} ensures c !in IdField(r) {
      JoinLacks(r.incomplete, ',', c);
      FormatIdsLacks(r.matched, c);
      FormatIdsLacks(r.extra, c);
      JoinLacks(parts, '|', c);
    }
    if !(forall i | 0 <= i < |r.incomplete| :: Kebab(r.incomplete[i])) {
      var i :| 0 <= i < |r.incomplete| && !Kebab(r.incomplete[i]);
      CheckedChars(r.incomplete[i]);
      JoinHas(r.incomplete, ',', i, '\n');
      JoinHas(parts, '|', 2, '\n');
    }
  }

  /** Four fields joined by tabs, broken by a line feed in the third: no piece has four fields. */
  lemma BrokenFields(a: string, b: string, field: string, d: string, p: nat)
    requires '\t' !in a && '\t' !in b && '\t' !in field && '\t' !in d && '\n' in field
    requires p < |Split(Join([a, b, field, d], '\t'), '\n')|
    ensures |Split(Split(Join([a, b, field, d], '\t'), '\n')[p], '\t')| < 4
  {
    var j :| 0 <= j < |field| && field[j] == '\n';
    var left, right := field[..j], field[j + 1..];
    assert field == left + ['\n'] + right;
    var front, back := a + ['\t'] + b + ['\t'] + left, right + ['\t'] + d;
    JoinFour(a, b, field, d);
    assert Join([a, b, field, d], '\t') == front + ['\n'] + back;
    SplitConcat(front, '\n', back);
    FrontFields(a, b, left);
    BackFields(right, d);
    if p < |Split(front, '\n')| {
      FieldsOfPiece(front, '\n', '\t', p);
    } else {
      FieldsOfPiece(back, '\n', '\t', p - |Split(front, '\n')|);
    }
  }

  lemma JoinFour(a: string, b: string, c: string, d: string)
    ensures Join([a, b, c, d], '\t') == a + ['\t'] + b + ['\t'] + c + ['\t'] + d
  {
    assert [a, b, c, d][1..] == [b, c, d] && [b, c, d][1..] == [c, d] && [c, d][1..] == [d];
    assert Join([d], '\t') == d;
    assert Join([c, d], '\t') == c + ['\t'] + d;
    assert Join([b, c, d], '\t') == b + ['\t'] + (c + ['\t'] + d);
    assert Join([a, b, c, d], '\t') == a + ['\t'] + (b + ['\t'] + (c + ['\t'] + d));
  }

  lemma FrontFields(a: string, b: string, left: string)
    requires '\t' !in a && '\t' !in b && '\t' !in left
    ensures |Split(a + ['\t'] + b + ['\t'] + left, '\t')| == 3
  {
    SplitConcat(a + ['\t'] + b, '\t', left);
    SplitConcat(a, '\t', b);
    SplitWhole(a, '\t');
    SplitWhole(b, '\t');
    SplitWhole(left, '\t');
  }

  lemma BackFields(right: string, d: string)
    requires '\t' !in right && '\t' !in d
    ensures |Split(right + ['\t'] + d, '\t')| == 2
  {
    SplitConcat(right, '\t', d);
    SplitWhole(right, '\t');
    SplitWhole(d, '\t');
  }

  /** A row broken by a line feed yields no row with identities. */
  lemma BrokenRow(r: TestResult, p: nat)
    requires CheckedRow(r) && CleanBucket(r) && Clean(r.rel) && !CleanRow(r)
    requires p < |Split(RowText(r), '\n')|
    ensures ParseLine(Split(RowText(r), '\n')[p]).Row? ==> ParseLine(Split(RowText(r), '\n')[p]).row.ids == None
  {
    hide Kebab, PassesCheck, StatusText, NumField, IdField, ParseNum, Blank, Saved, Split, Join;
    CheckedField(r);
    StatusIsClean(r);
    NumsSurvive(r);
    BrokenFields(StatusText(r.bucket), NumField(r), IdField(r), r.rel, p);
    DashField();
    FewFields(Split(RowText(r), '\n')[p]);
  }

  lemma FewFields(line: string)
    requires |Split(line, '\t')| < 4 && ParseIdField("-") == Some(None)
    ensures ParseLine(line).Row? ==> ParseLine(line).row.ids == None
  {
    hide ParseIdField, ParseNum, Blank, Split;
  }

  lemma NoReturns(header: seq<string>, rows: seq<TestResult>)
    requires Header(header) && CheckedRows(rows) && CleanBuckets(rows) && forall i | 0 <= i < |rows| :: Clean(rows[i].rel)
    ensures '\r' !in BoardText(header, rows)
  {
    hide RowText;
    var lines := header + RowTexts(rows);
    forall i | 0 <= i < |lines| ensures '\r' !in lines[i] {
      if i >= |header| {
        assert lines[i] == RowText(rows[i - |header|]);
        RowLacksReturn(rows[i - |header|]);
      } else {
        assert HeaderLine(header[i]);
      }
    }
    TerminatedLacks(lines, '\r');
  }

  lemma RowLacksReturn(r: TestResult)
    requires CheckedRow(r) && CleanBucket(r) && Clean(r.rel)
    ensures '\r' !in RowText(r)
  {
    hide Kebab, PassesCheck, StatusText, NumField, IdField, Join, Clean, NumsRead, Saved, ParseIdField;
    FieldLacksReturn(r);
    StatusIsClean(r);
    NumsSurvive(r);
    CleanLacks(StatusText(r.bucket));
    CleanLacks(NumField(r));
    CleanLacks(r.rel);
    JoinLacks([StatusText(r.bucket), NumField(r), IdField(r), r.rel], '\t', '\r');
  }

  lemma FieldLacksReturn(r: TestResult)
    requires CheckedRow(r) && Clean(r.rel)
    ensures '\r' !in IdField(r)
  {
    hide Kebab, PassesCheck, IdField, ParseIdField, Saved;
    if r.bucket.Unsupported? {
      CheckedField(r);
    } else {
      FieldSurvives(r);
    }
  }

  lemma CleanLacks(s: string)
    requires Clean(s)
    ensures '\r' !in s
  {
    assert Delimiter('\r');
  }

  /** A row that is not clean does not come back. */
  lemma UncleanIsLost(header: seq<string>, rows: seq<TestResult>, k: nat)
    requires Header(header) && CheckedRows(rows) && CleanBuckets(rows) && DistinctPaths(rows)
    requires (forall i | 0 <= i < |rows| :: Clean(rows[i].rel)) && k < |rows| && !CleanRow(rows[k])
    requires Read(BoardText(header, rows)).Some? && rows[k].rel in Read(BoardText(header, rows)).value
    ensures Read(BoardText(header, rows)).value[rows[k].rel].ids == None
  {
    hide RowText, ParseLine, CleanBucket, CheckedRow, ReadLines, Split, Terminated;
    NoReturns(header, rows);
    NormalizeLacks(BoardText(header, rows));
    var chunks := header + RowTexts(rows);
    var lines := Split(Terminated(chunks), '\n');
    var at := ReadComesFromLine(lines, rows[k].rel);
    EmptyLine();
    var i, p := PieceOfChunk(chunks, at);
    if i < |header| {
      HeaderPiece(header[i], p);
    } else {
      var r := rows[i - |header|];
      assert chunks[i] == RowText(r);
      if CleanRow(r) {
        RowSurvives(r);
        SplitWhole(RowText(r), '\n');
      } else {
        BrokenRow(r, p);
      }
    }
  }

  lemma HeaderPiece(h: string, p: nat)
    requires HeaderLine(h) && p < |Split(h, '\n')|
    ensures ParseLine(Split(h, '\n')[p]) == Skipped
  {
    SplitWhole(h, '\n');
  }

  /** With distinct paths and checked ids, a saved board reads back as the run exactly when no path holds
      a tab, line feed or carriage return and every surface id is strictly kebab-case. */
  lemma SaveIsExact(header: seq<string>, rows: seq<TestResult>)
    requires Header(header) && CheckedRows(rows) && CleanBuckets(rows) && DistinctPaths(rows)
    ensures Read(BoardText(header, rows)) == Some(SavedRun(LastWins(rows))) <==> CleanRows(rows)
  {
    hide RowText, ParseLine, CleanRow, CheckedRow, CleanBucket, Read, LastWins, Clean;
    if CleanRows(rows) {
      BoardSurvives(header, rows);
    }
    if Read(BoardText(header, rows)) == Some(SavedRun(LastWins(rows))) {
      forall i | 0 <= i < |rows| ensures Clean(rows[i].rel) {
        LastWinsKeys(rows, i);
        KeysAreClean(BoardText(header, rows), rows[i].rel);
      }
      forall i | 0 <= i < |rows| ensures CleanRow(rows[i]) {
        LastWinsDistinct(rows, i);
        if !CleanRow(rows[i]) {
          UncleanIsLost(header, rows, i);
          UncleanIsUnsupported(rows[i]);
        }
      }
    }
  }

  lemma UncleanIsUnsupported(r: TestResult)
    requires Clean(r.rel) && !CleanRow(r)
    ensures Saved(r).ids.Some?
  {
  }

  /** Save and read back, whatever the order of the results. */
  method SaveAndRead(header: seq<string>, results: seq<TestResult>) returns (board: Option<Board>)
    requires Header(header) && CleanBuckets(results) && CleanRows(results)
    ensures board == Some(SavedRun(LastWins(results)))
  {
    hide PassesCheck, Kebab, LastWins, Read, RowText, SavedRun;
    KebabIsChecked(results);
    ghost var rows, tidy;
    var text;
    text, rows, tidy := WriteScoreboard(header, results);
    TidyBoard(results, rows, tidy);
    BoardSurvives(header, tidy);
    board := ReadScoreboard(text.value);
  }

  lemma KebabIsChecked(rows: seq<TestResult>)
    requires CleanRows(rows)
    ensures CheckedRows(rows)
  {
    hide Kebab;
    forall i | 0 <= i < |rows| ensures CheckedRow(rows[i]) {
      assert CleanRow(rows[i]);
    }
  }

  lemma TidyBoard(results: seq<TestResult>, rows: seq<TestResult>, tidy: seq<TestResult>)
    requires multiset(rows) == multiset(results) && LastWins(rows) == LastWins(results) && AllTidied(rows, tidy)
    requires CleanRows(results) && CleanBuckets(results)
    ensures CleanRows(tidy) && CleanBuckets(tidy) && SavedRun(LastWins(tidy)) == SavedRun(LastWins(results))
  {
    hide CleanRow, CleanBucket, LastWins, SavedRun, Tidied;
    Text.SameLength(rows, results);
    forall i | 0 <= i < |tidy| ensures CleanRow(tidy[i]) && CleanBucket(tidy[i]) {
      assert rows[i] in results;
      TidiedIsSame(rows[i], tidy[i]);
    }
    TidyMap(rows, tidy);
  }

  lemma {:induction false} TidyMap(rows: seq<TestResult>, tidy: seq<TestResult>)
    requires AllTidied(rows, tidy)
    ensures SavedRun(LastWins(tidy)) == SavedRun(LastWins(rows))
  {
    hide Saved;
    if rows != [] {
      TidyMap(rows[..|rows| - 1], tidy[..|tidy| - 1]);
      TidiedIsSame(rows[|rows| - 1], tidy[|tidy| - 1]);
      SavedLast(rows);
      SavedLast(tidy);
    }
  }

  /** The shape check lets a final line feed through. */
  lemma CheckAdmitsFinalNewline()
    ensures PassesCheck("a/b\n") && !Kebab("a/b\n")
  {
    var id := "a/b\n";
    assert id[..3] == "a/b" && id[3] == '\n' && '\n' in id;
    KebabAB();
    if Kebab(id) {
      KebabChars(id, '\n');
    }
  }

  /** A carriage return in a path keeps the board from reading back. */
  lemma CarriageReturnIsLost(header: seq<string>)
    requires Header(header)
    ensures var rows := [TestResult("a\rb", InScope, [], 0, [], 0, [])];
            && CheckedRows(rows) && CleanBuckets(rows)
            && Read(BoardText(header, rows)) != Some(SavedRun(LastWins(rows)))
  {
    hide Read, BoardText, SavedRun, LastWins;
    var rows := [TestResult("a\rb", InScope, [], 0, [], 0, [])];
    assert Delimiter('\r') && rows[0].rel[1] == '\r' && '\r' in rows[0].rel;
    assert !CleanRow(rows[0]);
    SaveIsExact(header, rows);
  }

  lemma KebabAB()
    ensures Kebab("a/b")
  {
    SplitConcat("a", '/', "b");
    SplitWhole("a", '/');
    SplitWhole("b", '/');
    assert "a" + ['/'] + "b" == "a/b";
  }
}
