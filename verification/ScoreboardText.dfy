/** The scoreboard file: what is written is what is read back, exactly when paths and surface ids keep
    clear of the file's own delimiters. */
module ScoreboardText {
  import opened Wrappers
  import opened Delimited
  import opened Scoreboard

  // ------------------------------------------------------------------ surface ids

  predicate SegmentChar(c: char) {
    'a' <= c <= 'z' || '0' <= c <= '9' || c == '-'
  }

  /** Two or more non-empty kebab-case segments. */
  predicate Kebab(id: string) {
    var segments := Split(id, '/');
    && |segments| >= 2
    && (forall i | 0 <= i < |segments| :: segments[i] != [] && forall c | c in segments[i] :: SegmentChar(c))
  }

  /** Kebab-case ids are what joining two or more such segments gives. */
  lemma KebabSpelled(id: string)
    ensures Kebab(id) <==>
            exists segments: seq<string> :: |segments| >= 2 && id == Join(segments, '/') && Segments(segments)
  {
    hide Split, Join;
    JoinSplit(id, '/');
    if Kebab(id) {
      assert Segments(Split(id, '/'));
    }
    if segments: seq<string> :| |segments| >= 2 && id == Join(segments, '/') && Segments(segments) {
      SplitJoin(segments, '/');
    }
  }

  ghost predicate Segments(segments: seq<string>) {
    forall i | 0 <= i < |segments| ::
      segments[i] != [] && forall c | c in segments[i] :: 'a' <= c <= 'z' || '0' <= c <= '9' || c == '-'
  }

  /** The shape check: its end anchor also lets one final newline through. */
  predicate PassesCheck(id: string) {
    Kebab(id) || (id != [] && id[|id| - 1] == '\n' && Kebab(id[..|id| - 1]))
  }

  lemma KebabChars(id: string, c: char)
    requires Kebab(id) && !SegmentChar(c) && c != '/'
    ensures c !in id && id != []
  {
    SplitCovers(id, '/', c);
    assert Split([], '/') == [[]];
  }

  lemma {:induction false} SplitCovers(s: string, sep: char, c: char)
    requires c != sep && AllLack(Split(s, sep), c)
    ensures c !in s
  {
    if s != [] {
      var rest, parts := Split(s[1..], sep), Split(s, sep);
      if s[0] == sep {
        assert forall i | 0 <= i < |rest| :: rest[i] == parts[i + 1];
      } else {
        assert parts[0] == [s[0]] + rest[0];
        assert forall i | 1 <= i < |rest| :: rest[i] == parts[i];
        assert c !in rest[0];
      }
      SplitCovers(s[1..], sep, c);
      assert s == [s[0]] + s[1..];
    }
  }

  // ------------------------------------------------------------------ writing one row

  function IdText(id: Id): string {
    Show(id.0) + [':'] + Show(id.1)
  }

  function IdTexts(ids: seq<Id>): (r: seq<string>)
    ensures |r| == |ids| && forall i | 0 <= i < |r| :: r[i] == IdText(ids[i])
  {
    seq(|ids|, i requires 0 <= i < |ids| => IdText(ids[i]))
  }

  function FormatIds(ids: seq<Id>): string {
    Join(IdTexts(ids), ',')
  }

  function FormatNums(r: TestResult): string {
    Join([Show(|r.matched|), Show(r.missed), Show(|r.extra|), Show(r.expected)], ' ')
  }

  function IdField(r: TestResult): string {
    match r.bucket {
      case InScope => Join([FormatIds(r.matched), FormatIds(r.extra)], '|')
      case Unsupported => Join([FormatIds(r.matched), FormatIds(r.extra), Join(r.incomplete, ',')], '|')
      case Excluded(_) => "-"
    }
  }

  /** Four dashes. */
  function NoNums(): string {
    Join(["-", "-", "-", "-"], ' ')
  }

  function NumField(r: TestResult): string {
    if r.bucket.Excluded? then NoNums() else FormatNums(r)
  }

  function RowText(r: TestResult): string {
    Join([StatusText(r.bucket), NumField(r), IdField(r), r.rel], '\t')
  }

  // ------------------------------------------------------------------ reading one row

  function ParseId(token: string): Option<Id> {
    var parts := Split(token, ':');
    if |parts| != 2 then None
    else match (ParseNat(parts[0]), ParseNat(parts[1]))
      case (Some(line), Some(code)) => Some((line, code))
      case (_, _) => None
  }

  function ParseTokens(tokens: seq<string>): Option<seq<Id>> {
    if tokens == [] then Some([])
    else match (ParseId(tokens[0]), ParseTokens(tokens[1..]))
      case (Some(id), Some(rest)) => Some([id] + rest)
      case (_, _) => None
  }

  function ParseHalf(s: string): Option<seq<Id>> {
    ParseTokens(NonEmpty(Split(s, ',')))
  }

  /** The identity column; no identities are recorded as a dash. */
  function ParseIdField(field: string): Option<Option<Ids>> {
    if field == "-" || field == "" then Some(None)
    else
      var parts := Split(field, '|');
      var surfaces := NonEmpty(Split(if |parts| > 2 then parts[2] else "", ','));
      match (ParseHalf(parts[0]), ParseHalf(if |parts| > 1 then parts[1] else ""))
      case (Some(m), Some(f)) =>
        if forall i | 0 <= i < |surfaces| :: PassesCheck(surfaces[i])
        then Some(Some(Ids(multiset(m), multiset(f), multiset(surfaces)))) else None
      case (_, _) => None
  }

  function ParseNum(token: string): Option<Option<nat>> {
    if token == "-" then Some(None)
    else match ParseNat(token)
      case Some(n) => Some(Some(n))
      case None => None
  }

  datatype Reading = Skipped | Malformed | Row(rel: string, row: BaseRow)

  function ParseFields(status: string, nums: string, ids: string, rel: string): Reading {
    var n := NonEmpty(Split(nums, ' '));
    if |n| != 4 then Malformed
    else match (ParseNum(n[0]), ParseNum(n[1]), ParseNum(n[2]), ParseNum(n[3]), ParseIdField(ids))
      case (Some(m), Some(fn), Some(fp), Some(e), Some(parsed)) => Row(rel, BaseRow(status, m, fn, fp, e, parsed))
      case (_, _, _, _, _) => Malformed
  }

  function ParseLine(line: string): Reading {
    if line == [] || line[0] == '#' || Blank(line) then Skipped
    else
      var parts := Split(line, '\t');
      if |parts| == 4 then ParseFields(parts[0], parts[1], parts[2], parts[3])
      else if |parts| == 3 then ParseFields(parts[0], parts[1], "-", parts[2])
      else Skipped
  }

  /** A line of the old format, without the identity column, reads as one whose identities were not
      recorded. */
  lemma OldFormatReads(status: string, nums: string, rel: string)
    requires '\t' !in status && '\t' !in nums && '\t' !in rel
    requires status != [] && status[0] != '#' && !Blank(status)
    ensures ParseLine(Join([status, nums, rel], '\t')) == ParseLine(Join([status, nums, "-", rel], '\t'))
    ensures ParseLine(Join([status, nums, rel], '\t')).Row? ==>
              var row := ParseLine(Join([status, nums, rel], '\t'));
              row.rel == rel && row.row.status == status && row.row.ids == None
  {
    hide ParseFields, Split, Join, Blank;
    SplitJoin([status, nums, rel], '\t');
    SplitJoin([status, nums, "-", rel], '\t');
    StartsWithFirst([status, nums, rel]);
    StartsWithFirst([status, nums, "-", rel]);
    NoIdentities(status, nums, rel);
  }

  lemma StartsWithFirst(fields: seq<string>)
    requires fields != [] && fields[0] != [] && !Blank(fields[0])
    ensures var line := Join(fields, '\t'); line != [] && line[0] == fields[0][0] && !Blank(line)
  {
    var line := Join(fields, '\t');
    assert fields[0] <= line;
    var c :| c in fields[0] && !Blank([c]);
    assert c in line && c in [c];
  }

  lemma NoIdentities(status: string, nums: string, rel: string)
    ensures ParseFields(status, nums, "-", rel).Row? ==>
              var row := ParseFields(status, nums, "-", rel);
              row.rel == rel && row.row.status == status && row.row.ids == None
  {
    hide Split, ParseNum;
  }

  // ------------------------------------------------------------------ one row round trip

  predicate Delimiter(c: char) {
    c in {'\t', '\n', '\r'}
  }

  ghost predicate Clean(s: string) {
    forall c | c in s :: !Delimiter(c)
  }

  /** Nothing in the row collides with the file's delimiters. */
  ghost predicate CleanRow(r: TestResult) {
    && Clean(r.rel) && (r.bucket.Unsupported? ==> forall i | 0 <= i < |r.incomplete| :: Kebab(r.incomplete[i]))
  }

  /** Bucket names come from a fixed list and hold no delimiters. */
  ghost predicate CleanBucket(r: TestResult) {
    r.bucket.Excluded? ==> Clean(r.bucket.name)
  }

  lemma IdSurvives(id: Id)
    ensures ParseId(IdText(id)) == Some(id) && IdText(id) != []
  {
    ShowLacks(id.0, ':');
    ShowLacks(id.1, ':');
    SplitConcat(Show(id.0), ':', Show(id.1));
    SplitWhole(Show(id.0), ':');
    SplitWhole(Show(id.1), ':');
    ParseShow(id.0);
    ParseShow(id.1);
  }

  lemma IdTextLacks(id: Id, c: char)
    requires !IsDigit(c) && c != ':'
    ensures c !in IdText(id)
  {
    ShowLacks(id.0, c);
    ShowLacks(id.1, c);
  }

  lemma {:induction false} TokensParse(ids: seq<Id>)
    ensures ParseTokens(IdTexts(ids)) == Some(ids)
  {
    if ids != [] {
      IdSurvives(ids[0]);
      TokensParse(ids[1..]);
      assert IdTexts(ids)[1..] == IdTexts(ids[1..]);
      assert ids == [ids[0]] + ids[1..];
    }
  }

  lemma HalfSurvives(ids: seq<Id>)
    ensures ParseHalf(FormatIds(ids)) == Some(ids)
  {
    var tokens := IdTexts(ids);
    forall i | 0 <= i < |tokens| ensures ',' !in tokens[i] && tokens[i] != [] {
      IdTextLacks(ids[i], ',');
    }
    TokensSurvive(tokens, ',');
    TokensParse(ids);
  }

  lemma FormatIdsLacks(ids: seq<Id>, c: char)
    requires !IsDigit(c) && c != ':' && c != ','
    ensures c !in FormatIds(ids)
  {
    forall i | 0 <= i < |ids| ensures c !in IdTexts(ids)[i] {
      IdTextLacks(ids[i], c);
    }
    JoinLacks(IdTexts(ids), ',', c);
  }

  lemma SurfacesSurvive(ids: seq<string>)
    requires forall i | 0 <= i < |ids| :: Kebab(ids[i])
    ensures NonEmpty(Split(Join(ids, ','), ',')) == ids && '|' !in Join(ids, ',')
    ensures Clean(Join(ids, ','))
  {
    forall i, c | 0 <= i < |ids| && c in {',', '|', '\t', '\n', '\r'} ensures c !in ids[i] && ids[i] != [] {
      KebabChars(ids[i], c);
    }
    forall i | 0 <= i < |ids| ensures ids[i] != [] {
      KebabChars(ids[i], ',');
    }
    TokensSurvive(ids, ',');
    forall c | c in {'|', '\t', '\n', '\r'} ensures c !in Join(ids, ',') {
      JoinLacks(ids, ',', c);
    }
  }

  /** The identity column of an in-scope row. */
  lemma TwoPartField(m: seq<Id>, f: seq<Id>)
    ensures ParseIdField(Join([FormatIds(m), FormatIds(f)], '|')) == Some(Some(Ids(multiset(m), multiset(f), multiset{})))
    ensures Clean(Join([FormatIds(m), FormatIds(f)], '|'))
  {
    hide FormatIds;
    var parts := [FormatIds(m), FormatIds(f)];
    var field := Join(parts, '|');
    forall c | c in {'|', '\t', '\n', '\r'} ensures AllLack(parts, c) {
      FormatIdsLacks(m, c);
      FormatIdsLacks(f, c);
    }
    SplitJoin(parts, '|');
    HasBar(parts[0], Join(parts[1..], '|'));
    HalfSurvives(m);
    HalfSurvives(f);
    assert Split("", ',') == [""] && NonEmpty([""]) == NonEmpty([""][1..]) == [];
    JoinIsClean(parts, '|');
  }

  lemma ThreePartField(m: seq<Id>, f: seq<Id>, ids: seq<string>)
    requires forall i | 0 <= i < |ids| :: Kebab(ids[i])
    ensures var field := Join([FormatIds(m), FormatIds(f), Join(ids, ',')], '|');
            ParseIdField(field) == Some(Some(Ids(multiset(m), multiset(f), multiset(ids)))) && Clean(field)
  {
    hide FormatIds, Kebab, ParseIdField, ParseHalf, NonEmpty, Split, Join, Clean;
    var parts := [FormatIds(m), FormatIds(f), Join(ids, ',')];
    PartsAreClean(m, f, ids);
    SplitJoin(parts, '|');
    BarIn(parts);
    HalfSurvives(m);
    HalfSurvives(f);
    SurfacesSurvive(ids);
    ThreeParts(Join(parts, '|'), parts, m, f, ids);
  }

  lemma PartsAreClean(m: seq<Id>, f: seq<Id>, ids: seq<string>)
    requires forall i | 0 <= i < |ids| :: Kebab(ids[i])
    ensures var parts := [FormatIds(m), FormatIds(f), Join(ids, ',')]; AllLack(parts, '|') && Clean(Join(parts, '|'))
  {
    hide FormatIds, Kebab, Join, Split, NonEmpty;
    var parts := [FormatIds(m), FormatIds(f), Join(ids, ',')];
    SurfacesSurvive(ids);
    forall c | c in {'|', '\t', '\n', '\r'} ensures AllLack(parts, c) {
      FormatIdsLacks(m, c);
      FormatIdsLacks(f, c);
    }
    JoinIsClean(parts, '|');
  }

  lemma BarIn(parts: seq<string>)
    requires |parts| > 1
    ensures Join(parts, '|') != "-" && Join(parts, '|') != ""
  {
    HasBar(parts[0], Join(parts[1..], '|'));
  }

  lemma ThreeParts(field: string, parts: seq<string>, m: seq<Id>, f: seq<Id>, ids: seq<string>)
    requires field != "-" && field != "" && Split(field, '|') == parts && |parts| == 3
    requires ParseHalf(parts[0]) == Some(m) && ParseHalf(parts[1]) == Some(f)
    requires NonEmpty(Split(parts[2], ',')) == ids && forall i | 0 <= i < |ids| :: Kebab(ids[i])
    ensures ParseIdField(field) == Some(Some(Ids(multiset(m), multiset(f), multiset(ids))))
  {
    hide Kebab, ParseHalf;
    var surfaces := NonEmpty(Split(parts[2], ','));
    assert forall i | 0 <= i < |surfaces| :: PassesCheck(surfaces[i]);
  }

  lemma HasBar(a: string, b: string)
    ensures a + ['|'] + b != "-" && a + ['|'] + b != ""
  {
    var s := a + ['|'] + b;
    assert s[|a|] == '|';
  }

  lemma JoinIsClean(parts: seq<string>, sep: char)
    requires !Delimiter(sep) && forall c | c in {'\t', '\n', '\r'} :: AllLack(parts, c)
    ensures Clean(Join(parts, sep))
  {
    forall c | Delimiter(c) ensures c !in Join(parts, sep) {
      JoinLacks(parts, sep, c);
    }
  }

  lemma FieldSurvives(r: TestResult)
    requires CleanRow(r)
    ensures ParseIdField(IdField(r)) == Some(Saved(r).ids) && Clean(IdField(r))
  {
    hide Kebab, ParseIdField, FormatIds;
    match r.bucket {
      case InScope => TwoPartField(r.matched, r.extra);
      case Unsupported => ThreePartField(r.matched, r.extra, r.incomplete);
      case Excluded(_) => DashField();
    }
  }

  lemma DashField()
    ensures ParseIdField("-") == Some(None)
  {
  }

  ghost predicate NumsRead(nums: string, row: BaseRow) {
    var n := NonEmpty(Split(nums, ' '));
    && |n| == 4 && ParseNum(n[0]) == Some(row.matched) && ParseNum(n[1]) == Some(row.missed)
    && ParseNum(n[2]) == Some(row.extra) && ParseNum(n[3]) == Some(row.expected)
  }

  lemma NumSurvives(n: nat)
    ensures ParseNum(Show(n)) == Some(Some(n)) && ' ' !in Show(n) && Show(n) != [] && Clean(Show(n))
  {
    ParseShow(n);
    ShowLacks(n, '-');
    ShowLacks(n, ' ');
    assert Show(n) != "-" by {
      assert "-"[0] == '-';
    }
    forall c | Delimiter(c) ensures c !in Show(n) {
      ShowLacks(n, c);
    }
  }

  lemma NumsSurvive(r: TestResult)
    ensures NumsRead(NumField(r), Saved(r)) && Clean(NumField(r))
  {
    hide FormatNums, NoNums, NumsRead, Clean;
    if r.bucket.Excluded? {
      DashNums(Saved(r));
    } else {
      ShownNums(r);
    }
  }

  lemma DashNums(row: BaseRow)
    requires row.matched == None && row.missed == None && row.extra == None && row.expected == None
    ensures NumsRead(NoNums(), row) && Clean(NoNums())
  {
    hide Join, Split, NonEmpty;
    var tokens := ["-", "-", "-", "-"];
    TokensSurvive(tokens, ' ');
    JoinIsClean(tokens, ' ');
  }

  lemma ShownNums(r: TestResult)
    requires !r.bucket.Excluded?
    ensures NumsRead(FormatNums(r), Saved(r)) && Clean(FormatNums(r))
  {
    hide Show, ParseNum, Join, Split, NonEmpty;
    var tokens := [Show(|r.matched|), Show(r.missed), Show(|r.extra|), Show(r.expected)];
    NumSurvives(|r.matched|);
    NumSurvives(r.missed);
    NumSurvives(|r.extra|);
    NumSurvives(r.expected);
    TokensSurvive(tokens, ' ');
    JoinIsClean(tokens, ' ');
  }

  lemma StatusIsClean(r: TestResult)
    requires CleanBucket(r)
    ensures Clean(StatusText(r.bucket)) && Saved(r).status == StatusText(r.bucket)
    ensures StatusText(r.bucket) != [] && StatusText(r.bucket)[0] in {'I', 'O'}
  {
    if r.bucket.Excluded? {
      forall c | c in "OOS:" + r.bucket.name ensures !Delimiter(c) {
        assert c in "OOS:" || c in r.bucket.name;
      }
    }
  }

  /** A clean row is one line that reads back as the saved row. */
  lemma RowSurvives(r: TestResult)
    requires CleanRow(r) && CleanBucket(r)
    ensures ParseLine(RowText(r)) == Row(r.rel, Saved(r))
    ensures '\n' !in RowText(r) && '\r' !in RowText(r)
  {
    hide Kebab, StatusText, NumField, IdField, ParseIdField, Saved, ParseNum, Blank;
    var fields := [StatusText(r.bucket), NumField(r), IdField(r), r.rel];
    StatusIsClean(r);
    NumsSurvive(r);
    FieldSurvives(r);
    SplitJoin(fields, '\t');
    JoinLacks(fields, '\t', '\n');
    JoinLacks(fields, '\t', '\r');
    StartsVisibly(fields);
    FieldsSurvive(fields[0], fields[1], fields[2], fields[3], Saved(r));
  }

  lemma FieldsSurvive(status: string, nums: string, ids: string, rel: string, row: BaseRow)
    requires NumsRead(nums, row) && ParseIdField(ids) == Some(row.ids) && row.status == status
    ensures ParseFields(status, nums, ids, rel) == Row(rel, row)
  {
  }

  lemma StartsVisibly(fields: seq<string>)
    requires |fields| > 1 && fields[0] != [] && fields[0][0] in {'I', 'O'}
    ensures var line := Join(fields, '\t'); line != [] && line[0] != '#' && !Blank(line)
  {
    var line := Join(fields, '\t');
    assert line[0] == fields[0][0] && line[0] in line;
  }

  // ------------------------------------------------------------------ the whole file

  /** Universal newlines: a carriage return, alone or before a line feed, reads as a line feed. */
  function Normalize(s: string): string {
    if s == [] then []
    else if s[0] == '\r' then ['\n'] + Normalize(if |s| > 1 && s[1] == '\n' then s[2..] else s[1..])
    else [s[0]] + Normalize(s[1..])
  }

  lemma {:induction false} NormalizeLacks(s: string)
    ensures '\r' !in Normalize(s)
    ensures '\r' !in s ==> Normalize(s) == s
  {
    if s != [] {
      if s[0] == '\r' {
        NormalizeLacks(if |s| > 1 && s[1] == '\n' then s[2..] else s[1..]);
      } else {
        NormalizeLacks(s[1..]);
      }
    }
  }

  function ReadLines(lines: seq<string>): Option<Board> {
    if lines == [] then Some(map[])
    else match ReadLines(lines[..|lines| - 1])
      case None => None
      case Some(board) => Enter(board, lines[|lines| - 1])
  }

  function Enter(board: Board, line: string): Option<Board> {
    match ParseLine(line)
    case Skipped => Some(board)
    case Malformed => None
    case Row(rel, row) => Some(board[rel := row])
  }

  function Read(text: string): Option<Board> {
    ReadLines(Split(Normalize(text), '\n'))
  }

  /** Read the file line by line into a dictionary. */
  method ReadScoreboard(text: string) returns (r: Option<Board>)
    ensures r == Read(text)
  {
    var lines := Split(Normalize(text), '\n');
    var board: Board := map[];
    for i := 0 to |lines|
      invariant ReadLines(lines[..i]) == Some(board)
    {
      assert lines[..i + 1][..i] == lines[..i];
      var entered := Enter(board, lines[i]);
      if entered.None? {
        NoRecovery(lines, i + 1);
        return None;
      }
      board := entered.value;
    }
    assert lines[..|lines|] == lines;
    return Some(board);
  }

  lemma {:induction false} NoRecovery(lines: seq<string>, i: nat)
    requires i <= |lines| && ReadLines(lines[..i]).None?
    ensures ReadLines(lines).None?
    decreases |lines|
  {
    if i == |lines| {
      assert lines[..i] == lines;
    } else {
      var front := lines[..|lines| - 1];
      assert front[..i] == lines[..i];
      NoRecovery(front, i);
    }
  }

  /** Text made of lines, each ended by a line feed. */
  function Terminated(lines: seq<string>): string {
    if lines == [] then [] else lines[0] + ['\n'] + Terminated(lines[1..])
  }

  function RowTexts(rows: seq<TestResult>): (r: seq<string>)
    ensures |r| == |rows| && forall i | 0 <= i < |r| :: r[i] == RowText(rows[i])
  {
    seq(|rows|, i requires 0 <= i < |rows| => RowText(rows[i]))
  }

  function BoardText(header: seq<string>, rows: seq<TestResult>): string {
    Terminated(header + RowTexts(rows))
  }

  ghost predicate HeaderLine(h: string) {
    h != [] && h[0] == '#' && '\n' !in h && '\r' !in h
  }

  ghost predicate Header(header: seq<string>) {
    forall i | 0 <= i < |header| :: HeaderLine(header[i])
  }

  /** The result that a dictionary keeps for each path: the last one. */
  function LastWins(rows: seq<TestResult>): Run {
    if rows == [] then map[] else LastWins(rows[..|rows| - 1])[rows[|rows| - 1].rel := rows[|rows| - 1]]
  }

  lemma {:induction false} TerminatedSplits(lines: seq<string>)
    requires AllLack(lines, '\n')
    ensures Split(Terminated(lines), '\n') == lines + [[]]
  {
    if lines != [] {
      SplitConcat(lines[0], '\n', Terminated(lines[1..]));
      SplitWhole(lines[0], '\n');
      TerminatedSplits(lines[1..]);
      assert lines == [lines[0]] + lines[1..];
    }
  }

  lemma {:induction false} TerminatedLacks(lines: seq<string>, c: char)
    requires AllLack(lines, c) && c != '\n'
    ensures c !in Terminated(lines)
  {
    if lines != [] {
      TerminatedLacks(lines[1..], c);
    }
  }

  lemma {:induction false} HeaderIsSkipped(header: seq<string>)
    requires Header(header)
    ensures ReadLines(header) == Some(map[])
  {
    if header != [] {
      HeaderIsSkipped(header[..|header| - 1]);
    }
  }

  ghost predicate CleanRows(rows: seq<TestResult>) {
    forall i | 0 <= i < |rows| :: CleanRow(rows[i])
  }

  ghost predicate CleanBuckets(rows: seq<TestResult>) {
    forall i | 0 <= i < |rows| :: CleanBucket(rows[i])
  }

  lemma {:induction false} RowsAreRead(header: seq<string>, rows: seq<TestResult>)
    requires Header(header) && CleanRows(rows) && CleanBuckets(rows)
    ensures ReadLines(header + RowTexts(rows)) == Some(SavedRun(LastWins(rows)))
  {
    hide RowText, ParseLine, Saved, CleanRow, CleanBucket, HeaderLine;
    var lines := header + RowTexts(rows);
    if rows == [] {
      assert lines == header;
      HeaderIsSkipped(header);
      assert SavedRun(LastWins(rows)) == map[];
    } else {
      var front, last := rows[..|rows| - 1], rows[|rows| - 1];
      assert lines[..|lines| - 1] == header + RowTexts(front);
      RowsAreRead(header, front);
      RowSurvives(last);
      assert lines[|lines| - 1] == RowText(last);
      SavedLast(rows);
    }
  }

  lemma SavedLast(rows: seq<TestResult>)
    requires rows != []
    ensures SavedRun(LastWins(rows)) ==
            SavedRun(LastWins(rows[..|rows| - 1]))[rows[|rows| - 1].rel := Saved(rows[|rows| - 1])]
  {
  }

  /** Reading back a board of clean rows recovers every row. */
  lemma BoardSurvives(header: seq<string>, rows: seq<TestResult>)
    requires Header(header) && CleanRows(rows) && CleanBuckets(rows)
    ensures Read(BoardText(header, rows)) == Some(SavedRun(LastWins(rows)))
  {
    hide RowText, ParseLine;
    var lines := header + RowTexts(rows);
    forall i | 0 <= i < |lines| ensures '\n' !in lines[i] && '\r' !in lines[i] {
      if i >= |header| {
        assert lines[i] == RowText(rows[i - |header|]);
        RowSurvives(rows[i - |header|]);
      } else {
        assert HeaderLine(header[i]);
      }
    }
    TerminatedLacks(lines, '\r');
    NormalizeLacks(Terminated(lines));
    TerminatedSplits(lines);
    RowsAreRead(header, rows);
    assert (lines + [[]])[..|lines|] == lines;
    EmptyLine();
  }

  lemma EmptyLine()
    ensures ParseLine([]) == Skipped
  {
  }
}
