/** The sorted diagnostic identities of a project summary. */
module SummaryIdentities {
  import opened Bytes
  import opened LineIndex
  import Delimited
  import Text

  datatype Span = Span(start: nat, end: nat)

  datatype Diagnostic = Diagnostic(code: string, span: Span)

  datatype Report = Report(name: string, source: seq<byte>, diagnostics: seq<Diagnostic>)

  /** Where the summary places a missing module, given the span of its diagnostic. */
  datatype Location = Location(file: string, span: Span, summaryStart: nat)

  datatype Identity = Identity(file: string, offset: nat, code: string, position: Position)

  function Rendered(id: Identity): string {
    id.file + ":" + Delimited.Show(id.position.line) + ":" + Delimited.Show(id.position.column) + " " + id.code
  }

  /** The first location of the diagnostic, if it is a missing module; else where its span starts. */
  function SummaryOffset(d: Diagnostic, file: string, locations: seq<Location>): nat {
    if d.code != "TK2307" || locations == [] then d.span.start
    else if locations[0].file == file && locations[0].span == d.span then locations[0].summaryStart
    else SummaryOffset(d, file, locations[1..])
  }

  ghost predicate Locating(d: Diagnostic, file: string, l: Location) {
    l.file == file && l.span == d.span
  }

  /** Only a missing module is placed elsewhere than at the start of its span, and only by a location
      of its own. */
  lemma {:induction false} SummarizedAtStart(d: Diagnostic, file: string, locations: seq<Location>)
    requires d.code != "TK2307" || forall i | 0 <= i < |locations| :: !Locating(d, file, locations[i])
    ensures SummaryOffset(d, file, locations) == d.span.start
  {
    if d.code == "TK2307" && locations != [] {
      assert !Locating(d, file, locations[0]);
      SummarizedAtStart(d, file, locations[1..]);
    }
  }

  /** It is placed by the first one. */
  lemma {:induction false} SummarizedByFirst(d: Diagnostic, file: string, locations: seq<Location>, i: nat)
    requires d.code == "TK2307" && i < |locations| && Locating(d, file, locations[i])
    requires forall j | 0 <= j < i :: !Locating(d, file, locations[j])
    ensures SummaryOffset(d, file, locations) == locations[i].summaryStart
  {
    if i > 0 {
      assert !Locating(d, file, locations[0]);
      SummarizedByFirst(d, file, locations[1..], i - 1);
    }
  }

  /** Identities with equal texts agree in file, line, column and code. */
  lemma EqualTextsAgree(a: Identity, b: Identity)
    requires ':' !in a.code && ' ' !in a.code && ':' !in b.code && ' ' !in b.code
    ensures Rendered(a) == Rendered(b) <==> a.file == b.file && a.position == b.position && a.code == b.code
  {
    if Rendered(a) == Rendered(b) {
      hide Rendered, Delimited.Split, Delimited.Show;
      RenderedFields(a);
      RenderedFields(b);
      var x, y := Delimited.Split(a.file, ':'), Delimited.Split(b.file, ':');
      var all := Delimited.Split(Rendered(a), ':');
      assert x == all[..|all| - 2] == y;
      assert all[|all| - 2] == Delimited.Show(a.position.line) == Delimited.Show(b.position.line);
      Delimited.JoinSplit(a.file, ':');
      Delimited.JoinSplit(b.file, ':');
      Delimited.ParseShow(a.position.line);
      Delimited.ParseShow(b.position.line);
      Delimited.ParseShow(a.position.column);
      Delimited.ParseShow(b.position.column);
      LastField(a);
      LastField(b);
    }
  }

  function ColumnAndCode(id: Identity): string {
    Delimited.Show(id.position.column) + [' '] + id.code
  }

  lemma RenderedFields(id: Identity)
    requires ':' !in id.code
    ensures Delimited.Split(Rendered(id), ':')
         == Delimited.Split(id.file, ':') + [Delimited.Show(id.position.line), ColumnAndCode(id)]
  {
    hide Delimited.Split, Delimited.Show;
    var line := Delimited.Show(id.position.line);
    assert Rendered(id) == id.file + [':'] + line + [':'] + ColumnAndCode(id);
    Delimited.SplitConcat(id.file + [':'] + line, ':', ColumnAndCode(id));
    Delimited.SplitConcat(id.file, ':', line);
    Delimited.ShowLacks(id.position.line, ':');
    Delimited.ShowLacks(id.position.column, ':');
    Delimited.SplitWhole(line, ':');
    Delimited.SplitWhole(ColumnAndCode(id), ':');
  }

  lemma LastField(id: Identity)
    requires ' ' !in id.code
    ensures Delimited.Split(ColumnAndCode(id), ' ') == [Delimited.Show(id.position.column), id.code]
  {
    hide Delimited.Split, Delimited.Show;
    var column := Delimited.Show(id.position.column);
    Delimited.ShowLacks(id.position.column, ' ');
    Delimited.SplitConcat(column, ' ', id.code);
    Delimited.SplitWhole(column, ' ');
    Delimited.SplitWhole(id.code, ' ');
  }

  /** The identity of one diagnostic of a report. */
  ghost predicate Identifies(id: Identity, report: Report, d: Diagnostic, locations: seq<Location>) {
    && id.file == report.name && id.code == d.code && id.offset == SummaryOffset(d, report.name, locations)
    && Locates(report.source, id.offset, id.position)
  }

  ghost function PositionAt(source: seq<byte>, offset: nat): (p: Position)
    ensures Locates(source, offset, p)
  {
    var at := Clamp(source, offset);
    Position(1 + Newlines(source[..at]), at - LineStart(source, at) + 1)
  }

  ghost function IdentityOf(report: Report, d: Diagnostic, locations: seq<Location>): (id: Identity)
    ensures Identifies(id, report, d, locations)
  {
    var offset := SummaryOffset(d, report.name, locations);
    Identity(report.name, offset, d.code, PositionAt(report.source, offset))
  }

  lemma IdentityIsUnique(id: Identity, report: Report, d: Diagnostic, locations: seq<Location>)
    requires Identifies(id, report, d, locations)
    ensures id == IdentityOf(report, d, locations)
  {
  }

  ghost function IdentitiesOf(report: Report, locations: seq<Location>, n: nat): seq<Identity>
    requires n <= |report.diagnostics|
  {
    seq(n, i requires 0 <= i < n => IdentityOf(report, report.diagnostics[i], locations))
  }

  /** One identity for each diagnostic, file by file. */
  ghost function AllIdentities(reports: seq<Report>, locations: seq<Location>): seq<Identity> {
    if reports == [] then []
    else
      var last := reports[|reports| - 1];
      AllIdentities(reports[..|reports| - 1], locations) + IdentitiesOf(last, locations, |last.diagnostics|)
  }

  // ------------------------------------------------------------------ order

  predicate AtMost(a: Identity, b: Identity) {
    if a.file != b.file then Text.AtMost(a.file, b.file)
    else if a.offset != b.offset then a.offset < b.offset
    else if a.code != b.code then Text.AtMost(a.code, b.code)
    else Text.AtMost(Rendered(a), Rendered(b))
  }

  /** By file, then by offset, then by code. */
  lemma OrderOfKeys(a: Identity, b: Identity)
    requires AtMost(a, b)
    ensures Text.AtMost(a.file, b.file)
    ensures a.file == b.file ==> a.offset <= b.offset
    ensures a.file == b.file && a.offset == b.offset ==> Text.AtMost(a.code, b.code)
  {
    hide Rendered;
    Text.Reflexive(a.file);
    Text.Reflexive(a.code);
  }

  ghost predicate Sorted(s: seq<Identity>) {
    forall i, j | 0 <= i < j < |s| :: AtMost(s[i], s[j])
  }

  lemma Total(a: Identity, b: Identity)
    ensures AtMost(a, b) || AtMost(b, a)
  {
    hide Rendered;
    Text.Total(a.file, b.file);
    Text.Total(a.code, b.code);
    Text.Total(Rendered(a), Rendered(b));
  }

  lemma Chain(a: string, b: string, c: string)
    ensures Text.AtMost(a, b) && Text.AtMost(b, c) ==> Text.AtMost(a, c)
    ensures Text.AtMost(a, b) && Text.AtMost(b, a) ==> a == b
  {
    if Text.AtMost(a, b) && Text.AtMost(b, c) {
      Text.Transitive(a, b, c);
    }
    if Text.AtMost(a, b) && Text.AtMost(b, a) {
      Text.Antisymmetric(a, b);
    }
  }

  lemma Transitive(a: Identity, b: Identity, c: Identity)
    requires AtMost(a, b) && AtMost(b, c)
    ensures AtMost(a, c)
  {
    hide Text.AtMost, Rendered;
    Chain(a.file, b.file, c.file);
    Chain(a.code, b.code, c.code);
    Chain(Rendered(a), Rendered(b), Rendered(c));
  }

  method Insert(s: seq<Identity>, x: Identity) returns (r: seq<Identity>)
    requires Sorted(s)
    ensures Sorted(r) && multiset(r) == multiset(s) + multiset{x}
  {
    hide AtMost, Sorted;
    var k := |s|;
    while k > 0 && !AtMost(s[k - 1], x)
      invariant 0 <= k <= |s|
      invariant forall j | k <= j < |s| :: AtMost(x, s[j])
    {
      k := k - 1;
      Total(s[k], x);
    }
    r := s[..k] + [x] + s[k..];
    InsertedIsSorted(s, k, x);
    assert s == s[..k] + s[k..];
  }

  lemma InsertedIsSorted(s: seq<Identity>, k: nat, x: Identity)
    requires Sorted(s) && k <= |s| && (k > 0 ==> AtMost(s[k - 1], x)) && forall j | k <= j < |s| :: AtMost(x, s[j])
    ensures Sorted(s[..k] + [x] + s[k..])
  {
    hide AtMost;
    forall i | 0 <= i < k ensures AtMost(s[i], x) {
      if i < k - 1 {
        Transitive(s[i], s[k - 1], x);
      }
    }
  }

  method Sort(s: seq<Identity>) returns (r: seq<Identity>)
    ensures Sorted(r) && multiset(r) == multiset(s)
  {
    r := [];
    for i := 0 to |s|
      invariant Sorted(r) && multiset(r) == multiset(s[..i])
    {
      assert s[..i + 1] == s[..i] + [s[i]];
      r := Insert(r, s[i]);
    }
    assert s[..|s|] == s;
  }

  // ------------------------------------------------------------------ the summary

  /** Collect the identities of all reports, sort them, and keep their texts. */
  method DiagnosticIdentities(reports: seq<Report>, locations: seq<Location>)
      returns (texts: seq<string>, ghost identities: seq<Identity>)
    requires forall r | r in reports :: |r.source| < U32
    ensures Sorted(identities) && multiset(identities) == multiset(AllIdentities(reports, locations))
    ensures |texts| == |identities| && forall i | 0 <= i < |texts| :: texts[i] == Rendered(identities[i])
  {
    hide Locates;
    var collected: seq<Identity> := [];
    for r := 0 to |reports|
      invariant collected == AllIdentities(reports[..r], locations)
    {
      assert reports[..r + 1][..r] == reports[..r];
      collected := Collect(reports[r], locations, collected);
    }
    assert reports[..|reports|] == reports;
    var sorted := Sort(collected);
    identities := sorted;
    texts := seq(|sorted|, i requires 0 <= i < |sorted| => Rendered(sorted[i]));
  }

  method Collect(report: Report, locations: seq<Location>, before: seq<Identity>) returns (collected: seq<Identity>)
    requires |report.source| < U32
    ensures collected == before + IdentitiesOf(report, locations, |report.diagnostics|)
  {
    hide Locates;
    collected := before;
    var lines := Build(report.source);
    for i := 0 to |report.diagnostics|
      invariant collected == before + IdentitiesOf(report, locations, i)
    {
      var d := report.diagnostics[i];
      var offset := SummaryOffset(d, report.name, locations);
      var position := LineCol(lines, offset, report.source);
      IdentityIsUnique(Identity(report.name, offset, d.code, position), report, d, locations);
      collected := collected + [Identity(report.name, offset, d.code, position)];
    }
  }

  lemma {:induction false} ComesFromReport(reports: seq<Report>, locations: seq<Location>, id: Identity)
      returns (r: nat, d: nat)
    requires id in AllIdentities(reports, locations)
    ensures r < |reports| && d < |reports[r].diagnostics| && Identifies(id, reports[r], reports[r].diagnostics[d], locations)
  {
    var last, before := reports[|reports| - 1], reports[..|reports| - 1];
    if id in AllIdentities(before, locations) {
      r, d := ComesFromReport(before, locations, id);
    } else {
      r := |reports| - 1;
      d :| 0 <= d < |last.diagnostics| && IdentitiesOf(last, locations, |last.diagnostics|)[d] == id;
    }
  }

  /** Although it is sorted by byte offset, the summary of each file is in line and column order. */
  lemma SummaryIsInPositionOrder(reports: seq<Report>, locations: seq<Location>, identities: seq<Identity>)
    requires forall i, j | 0 <= i < j < |reports| :: reports[i].name != reports[j].name
    requires Sorted(identities) && multiset(identities) == multiset(AllIdentities(reports, locations))
    ensures forall i, j | 0 <= i < j < |identities| && identities[i].file == identities[j].file ::
              !Before(identities[j].position, identities[i].position)
  {
    hide AllIdentities, Locates, Text.AtMost, Rendered;
    forall i, j | 0 <= i < j < |identities| && identities[i].file == identities[j].file
      ensures !Before(identities[j].position, identities[i].position)
    {
      var a, b := identities[i], identities[j];
      assert a in multiset(identities) && b in multiset(identities);
      assert a in AllIdentities(reports, locations) && b in AllIdentities(reports, locations);
      var r, _ := ComesFromReport(reports, locations, a);
      var q, _ := ComesFromReport(reports, locations, b);
      assert r == q && AtMost(a, b) && a.offset <= b.offset;
      OffsetOrderIsPositionOrder(reports[r].source, [a.offset, b.offset], [a.position, b.position]);
      assert [a.position, b.position][0] == a.position && [a.position, b.position][1] == b.position;
    }
  }
}
