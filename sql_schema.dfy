/**
  The schema-creation script's text processing (create_database.py): the
  statement splitter `_parse_sql_commands`, and the cutting of the schema
  file into a table-and-view section and a stored-procedure section.
  Executing the statements against MySQL is not modelled.
 */
module SqlSchema {
  import opened Wrappers
  import opened PyStr

  // ---------------------------------------------------------------------
  // Line classification (create_database.py:20-34)
  // ---------------------------------------------------------------------

  /** A comment line: stripped, it starts with `--` or `#`. */
  predicate IsComment(line: string) {
    StartsWith(Strip(line), "--") || StartsWith(Strip(line), "#")
  }

  /** An empty or whitespace-only line. */
  predicate IsBlank(line: string) {
    Strip(line) == ""
  }

  /** A client directive: stripped and upper-cased, it starts with `DELIMITER`, `USE ` or `SHOW `. */
  predicate IsDirective(line: string) {
    var u := Upper(Strip(line));
    StartsWith(u, "DELIMITER") || StartsWith(u, "USE ") || StartsWith(u, "SHOW ")
  }

  /** A line the splitter adds to the statement under construction. */
  predicate IsKept(line: string) {
    !IsComment(line) && !IsBlank(line) && !IsDirective(line)
  }

  /** A line that closes a statement: stripped, it ends with `;`. */
  predicate Terminates(line: string) {
    EndsWith(Strip(line), ";")
  }

  // ---------------------------------------------------------------------
  // Specification of the splitter, over any line classification
  // ---------------------------------------------------------------------

  /** The lines that `keep` accepts, verbatim and in input order. */
  function Filter(lines: seq<string>, keep: string -> bool): seq<string>
    decreases |lines|
  {
    if lines == [] then []
    else Filter(lines[..|lines| - 1], keep) + (if keep(lines[|lines| - 1]) then [lines[|lines| - 1]] else [])
  }

  /** The filter keeps exactly the accepted lines. */
  lemma {:induction false} FilterMembers(lines: seq<string>, keep: string -> bool)
    ensures forall l :: l in Filter(lines, keep) <==> l in lines && keep(l)
    decreases |lines|
  {
    if lines != [] {
      var init, last := lines[..|lines| - 1], lines[|lines| - 1];
      assert lines == init + [last];
      FilterMembers(init, keep);
    }
  }

  /** The lines after the last one that `ends` a statement: the statement still open. */
  function Pending(ks: seq<string>, ends: string -> bool): seq<string>
    decreases |ks|
  {
    if ks == [] then []
    else if ends(ks[|ks| - 1]) then []
    else Pending(ks[..|ks| - 1], ends) + [ks[|ks| - 1]]
  }

  /** The closed statements, each as its list of lines. */
  function Groups(ks: seq<string>, ends: string -> bool): seq<seq<string>>
    decreases |ks|
  {
    if ks == [] then []
    else
      var init, last := ks[..|ks| - 1], ks[|ks| - 1];
      if ends(last) then Groups(init, ends) + [Pending(init, ends) + [last]] else Groups(init, ends)
  }

  /** All lines of all groups, in order. */
  function Flatten(gs: seq<seq<string>>): seq<string>
    decreases |gs|
  {
    if gs == [] then [] else Flatten(gs[..|gs| - 1]) + gs[|gs| - 1]
  }

  /** The number of lines that `ends` accepts. */
  function CountWhere(ks: seq<string>, ends: string -> bool): nat
    decreases |ks|
  {
    if ks == [] then 0
    else CountWhere(ks[..|ks| - 1], ends) + (if ends(ks[|ks| - 1]) then 1 else 0)
  }

  /** A statement's lines: the last one ends it and no earlier one does. */
  predicate WellTerminated(g: seq<string>, ends: string -> bool) {
    |g| > 0 && ends(g[|g| - 1]) && forall j :: 0 <= j < |g| - 1 ==> !ends(g[j])
  }

  /** Each group glued with `"\n"`. */
  function JoinEach(gs: seq<seq<string>>): seq<string> {
    seq(|gs|, i requires 0 <= i < |gs| => Join(gs[i], "\n"))
  }

  /** The kept lines of a schema script. */
  function Kept(lines: seq<string>): seq<string> {
    Filter(lines, IsKept)
  }

  /** What `_parse_sql_commands(sql_text)` returns. */
  function SqlCommands(sqlText: string): seq<string> {
    JoinEach(Groups(Kept(Split(sqlText, "\n")), Terminates))
  }

  // ---------------------------------------------------------------------
  // The splitter itself (create_database.py:13-39)
  // ---------------------------------------------------------------------

  /** `_parse_sql_commands`: the statements of a schema script, comment and directive lines dropped. */
  method ParseSqlCommands(sqlText: string) returns (commands: seq<string>)
    ensures commands == SqlCommands(sqlText)
  {
    commands := [];
    var currentCommand: seq<string> := [];
    var lines := Split(sqlText, "\n");
    for i := 0 to |lines|
      invariant commands == JoinEach(Groups(Kept(lines[..i]), Terminates))
      invariant currentCommand == Pending(Kept(lines[..i]), Terminates)
    {
      var line := lines[i];
      KeptStep(lines, i);
      var stripped := Strip(line);
      if StartsWith(stripped, "--") || StartsWith(stripped, "#") {
        assert IsComment(line);
        continue;
      }
      if stripped == "" {
        assert IsBlank(line);
        continue;
      }
      var upper := Upper(stripped);
      if StartsWith(upper, "DELIMITER") || StartsWith(upper, "USE ") || StartsWith(upper, "SHOW ") {
        assert IsDirective(line);
        continue;
      }
      assert IsKept(line);
      ghost var before := Kept(lines[..i]);
      GroupsStep(before, line, Terminates);
      currentCommand := currentCommand + [line];
      if EndsWith(stripped, ";") {
        assert Terminates(line);
        JoinEachStep(Groups(before, Terminates), currentCommand);
        commands := commands + [Join(currentCommand, "\n")];
        currentCommand := [];
      } else {
        assert !Terminates(line);
      }
    }
    assert lines[..|lines|] == lines;
  }

  /** One more input line: the kept lines grow by it exactly when it is kept. */
  lemma KeptStep(lines: seq<string>, i: nat)
    requires i < |lines|
    ensures Kept(lines[..i + 1]) == if IsKept(lines[i]) then Kept(lines[..i]) + [lines[i]] else Kept(lines[..i])
  {
    assert lines[..i + 1][..i] == lines[..i];
  }

  /** One more kept line: it closes the open statement exactly when it ends one. */
  lemma GroupsStep(ks: seq<string>, line: string, ends: string -> bool)
    ensures Groups(ks + [line], ends) ==
              if ends(line) then Groups(ks, ends) + [Pending(ks, ends) + [line]] else Groups(ks, ends)
    ensures Pending(ks + [line], ends) == if ends(line) then [] else Pending(ks, ends) + [line]
  {
    assert (ks + [line])[..|ks|] == ks;
  }

  /** Joining one more group appends its joined text. */
  lemma JoinEachStep(gs: seq<seq<string>>, g: seq<string>)
    ensures JoinEach(gs + [g]) == JoinEach(gs) + [Join(g, "\n")]
  {
  }

  // ---------------------------------------------------------------------
  // Properties of the splitter
  // ---------------------------------------------------------------------

  /**
    The lines fall into the closed statements followed by the open one;
    every closed statement is well terminated and uses the given lines only;
    the open one holds no terminating line; there is one statement per
    terminating line.
   */
  lemma {:induction false} GroupsPartition(ks: seq<string>, ends: string -> bool)
    ensures Flatten(Groups(ks, ends)) + Pending(ks, ends) == ks
    ensures forall l :: l in Pending(ks, ends) ==> !ends(l)
    ensures |Groups(ks, ends)| == CountWhere(ks, ends)
    ensures forall i :: 0 <= i < |Groups(ks, ends)| ==> WellTerminated(Groups(ks, ends)[i], ends)
    decreases |ks|
  {
    if ks != [] {
      var init, last := ks[..|ks| - 1], ks[|ks| - 1];
      GroupsPartition(init, ends);
      assert ks == init + [last];
      if ends(last) {
        var gs := Groups(init, ends) + [Pending(init, ends) + [last]];
        assert gs[..|gs| - 1] == Groups(init, ends);
      }
    }
  }

  /** A line of a group is one of the lines it was cut from. */
  lemma {:induction false} GroupLinesAreLines(ks: seq<string>, ends: string -> bool, i: nat, j: nat)
    requires i < |Groups(ks, ends)| && j < |Groups(ks, ends)[i]|
    ensures Groups(ks, ends)[i][j] in ks
    decreases |ks|
  {
    var init, last := ks[..|ks| - 1], ks[|ks| - 1];
    assert ks == init + [last];
    var gs := Groups(ks, ends);
    if ends(last) && i == |gs| - 1 {
      GroupsPartition(init, ends);
      if j < |Pending(init, ends)| {
        assert gs[i][j] in Pending(init, ends);
        assert gs[i][j] in init;
      }
    } else {
      GroupLinesAreLines(init, ends, i, j);
    }
  }

  /** The count is zero exactly when no line is accepted. */
  lemma {:induction false} CountWhereZero(ks: seq<string>, ends: string -> bool)
    ensures CountWhere(ks, ends) == 0 <==> forall l :: l in ks ==> !ends(l)
    decreases |ks|
  {
    if ks != [] {
      var init := ks[..|ks| - 1];
      CountWhereZero(init, ends);
      assert ks == init + [ks[|ks| - 1]];
    }
  }

  /** Joining the joined groups is joining all their lines, when no group is empty. */
  lemma {:induction false} JoinFlatten(gs: seq<seq<string>>)
    requires forall i :: 0 <= i < |gs| ==> |gs[i]| > 0
    ensures Join(JoinEach(gs), "\n") == Join(Flatten(gs), "\n")
    ensures gs != [] ==> Flatten(gs) != []
    decreases |gs|
  {
    if gs != [] {
      var init, g := gs[..|gs| - 1], gs[|gs| - 1];
      JoinFlatten(init);
      assert JoinEach(gs) == JoinEach(init) + [Join(g, "\n")];
      if init != [] {
        JoinAppend(JoinEach(init), [Join(g, "\n")], "\n");
        JoinAppend(Flatten(init), g, "\n");
      } else {
        assert Flatten(gs) == g;
      }
    }
  }

  /** `line in lines`, for lines cut at `"\n"`, holds no `"\n"`. */
  lemma LinesHaveNoNewline(sqlText: string, l: string)
    requires l in Split(sqlText, "\n")
    ensures !Contains(l, "\n")
  {
    var lines := Split(sqlText, "\n");
    var i :| 0 <= i < |lines| && lines[i] == l;
  }

  /**
    Each returned statement, cut back at `"\n"`, gives lines of the input,
    verbatim; none is a comment, blank or a directive; the last one ends in
    `;` after stripping and no earlier one does.
   */
  lemma CommandShape(sqlText: string, i: nat)
    requires i < |SqlCommands(sqlText)|
    ensures var ls := Split(SqlCommands(sqlText)[i], "\n");
            && |ls| > 0
            && Terminates(ls[|ls| - 1])
            && (forall j :: 0 <= j < |ls| - 1 ==> !Terminates(ls[j]))
            && (forall j :: 0 <= j < |ls| ==> ls[j] in Split(sqlText, "\n"))
            && (forall j :: 0 <= j < |ls| ==> !IsComment(ls[j]) && !IsBlank(ls[j]) && !IsDirective(ls[j]))
  {
    var lines := Split(sqlText, "\n");
    var ks := Kept(lines);
    GroupsPartition(ks, Terminates);
    var g := Groups(ks, Terminates)[i];
    assert WellTerminated(g, Terminates);
    FilterMembers(lines, IsKept);
    forall j | 0 <= j < |g| ensures g[j] in lines && IsKept(g[j]) && !Contains(g[j], ['\n']) {
      GroupLinesAreLines(ks, Terminates, i, j);
      LinesHaveNoNewline(sqlText, g[j]);
    }
    JoinSplitChar(g, '\n');
    assert Split(SqlCommands(sqlText)[i], "\n") == g;
  }

  /** No returned statement is the empty string. */
  lemma CommandsNonEmpty(sqlText: string)
    ensures forall c :: c in SqlCommands(sqlText) ==> c != ""
  {
    forall c | c in SqlCommands(sqlText) ensures c != "" {
      var i :| 0 <= i < |SqlCommands(sqlText)| && SqlCommands(sqlText)[i] == c;
      CommandShape(sqlText, i);
      EmptyIsBlank();
    }
  }

  /** The empty string cuts into the one blank line `""`. */
  lemma EmptyIsBlank()
    ensures Split("", "\n") == [""] && IsBlank("")
  {
    SplitUnfold("", "\n");
  }

  /**
    Joining the statements with `"\n"` gives back exactly the kept lines up
    to the last terminating one; the kept lines after it are dropped, and
    none of them terminates.
   */
  lemma CommandsCoverKeptLines(sqlText: string)
    ensures var ks := Kept(Split(sqlText, "\n"));
            var body := Flatten(Groups(ks, Terminates));
            && Join(SqlCommands(sqlText), "\n") == Join(body, "\n")
            && body + Pending(ks, Terminates) == ks
            && (body == [] || Terminates(body[|body| - 1]))
            && (forall l :: l in Pending(ks, Terminates) ==> !Terminates(l))
  {
    var ks := Kept(Split(sqlText, "\n"));
    var gs := Groups(ks, Terminates);
    GroupsPartition(ks, Terminates);
    JoinFlatten(gs);
    if gs != [] {
      var init := gs[..|gs| - 1];
      assert WellTerminated(gs[|gs| - 1], Terminates);
      assert Flatten(gs) == Flatten(init) + gs[|gs| - 1];
    }
  }

  /** One statement per kept terminating line; none at all if no kept line terminates. */
  lemma CommandCount(sqlText: string)
    ensures var ks := Kept(Split(sqlText, "\n"));
            && |SqlCommands(sqlText)| == CountWhere(ks, Terminates)
            && (SqlCommands(sqlText) == [] <==> forall l :: l in ks ==> !Terminates(l))
  {
    var ks := Kept(Split(sqlText, "\n"));
    GroupsPartition(ks, Terminates);
    CountWhereZero(ks, Terminates);
  }

  // ---------------------------------------------------------------------
  // Sections of the schema file (create_database.py:91-120)
  // ---------------------------------------------------------------------

  const OpenDelimiter := "DELIMITER //"
  const CloseDelimiter := "DELIMITER ;"
  const ProcedureSeparator := "//"

  /** `parts[0]` of `sql_content.split('DELIMITER //')`: the tables and views. */
  function TableSection(sqlContent: string): string {
    Split(sqlContent, OpenDelimiter)[0]
  }

  /**
    The statements run for the tables and views (an empty section runs none):
    one per `;` line of the table section, none of them empty, so the
    `if cmd` guard never skips one. Without a `DELIMITER //` the whole file
    is the table section.
   */
  function TableCommands(sqlContent: string): (r: seq<string>)
    ensures |r| == CountWhere(Kept(Split(TableSection(sqlContent), "\n")), Terminates)
    ensures forall c :: c in r ==> c != ""
    ensures !Contains(sqlContent, OpenDelimiter) && sqlContent != "" ==> r == SqlCommands(sqlContent)
  {
    var part := TableSection(sqlContent);
    CommandCount(part);
    CommandsNonEmpty(part);
    FirstPieceEnd(sqlContent, OpenDelimiter);
    if part == "" then
      assert Split(part, "\n") == [""] by { SplitUnfold(part, "\n"); }
      assert Kept([""]) == [] by { EmptyIsBlank(); }
      []
    else SqlCommands(part)
  }

  /**
    `parts[1].split('DELIMITER ;')[0]`, present exactly when `len(parts) > 1`,
    that is when the text holds a `DELIMITER //`; it holds neither marker.
   */
  function ProcedureSection(sqlContent: string): (r: Option<string>)
    ensures r.None? <==> !Contains(sqlContent, OpenDelimiter)
    ensures r.Some? ==> !Contains(r.value, OpenDelimiter) && !Contains(r.value, CloseDelimiter)
  {
    var parts := Split(sqlContent, OpenDelimiter);
    FirstPieceEnd(sqlContent, OpenDelimiter);
    if |parts| > 1 then
      var section := Split(parts[1], CloseDelimiter)[0];
      FirstPiecePrefix(parts[1], CloseDelimiter);
      assert OccursAt(parts[1], section, 0);
      SubstringAvoids(parts[1], section, OpenDelimiter);
      Some(section)
    else None
  }

  /** `[p.strip() for p in pieces if p.strip()]`. */
  function StrippedPieces(pieces: seq<string>): (r: seq<string>)
    ensures forall x :: x in r ==> x != "" && exists p :: p in pieces && Strip(p) == x
    ensures forall p :: p in pieces && Strip(p) != "" ==> Strip(p) in r
    decreases |pieces|
  {
    if pieces == [] then []
    else
      var t := Strip(pieces[0]);
      assert pieces == [pieces[0]] + pieces[1..];
      (if t != "" then [t] else []) + StrippedPieces(pieces[1..])
  }

  /** The stripped non-empty pieces of the procedure section between `//` separators. */
  function ProcedureCandidates(sqlContent: string): seq<string> {
    match ProcedureSection(sqlContent)
    case None => []
    case Some(section) => StrippedPieces(Split(section, ProcedureSeparator))
  }

  /** `'CREATE PROCEDURE' in proc.upper() or 'CREATE FUNCTION' in proc.upper()`. */
  predicate DefinesRoutine(proc: string) {
    var u := Upper(proc);
    Contains(u, "CREATE PROCEDURE") || Contains(u, "CREATE FUNCTION")
  }

  /** The procedures the script executes: the non-empty ones that define a routine, in order. */
  function RoutineDefinitions(procs: seq<string>): (r: seq<string>)
    ensures forall x :: x in r <==> x in procs && x != "" && DefinesRoutine(x)
    decreases |procs|
  {
    if procs == [] then []
    else
      var p := procs[0];
      assert procs == [p] + procs[1..];
      (if p != "" && DefinesRoutine(p) then [p] else []) + RoutineDefinitions(procs[1..])
  }

  /**
    What the procedure loop hands to `cursor.execute`: nothing without a
    procedure section, and otherwise only non-empty, already stripped texts
    that define a routine.
   */
  function ProceduresToCreate(sqlContent: string): (r: seq<string>)
    ensures ProcedureSection(sqlContent).None? ==> r == []
    ensures forall x :: x in r ==> x != "" && Strip(x) == x && DefinesRoutine(x)
  {
    var procs := ProcedureCandidates(sqlContent);
    assert forall x :: x in procs ==> Strip(x) == x by {
      forall x | x in procs ensures Strip(x) == x {
        var section := ProcedureSection(sqlContent).value;
        var p :| p in Split(section, ProcedureSeparator) && Strip(p) == x;
        StripIdempotent(p);
      }
    }
    RoutineDefinitions(procs)
  }

  // ---------------------------------------------------------------------
  // Properties of the sections
  // ---------------------------------------------------------------------

  /**
    A first piece of a first piece: `section` is a prefix of `rest` inside
    which no `open` starts and which holds no `close`; what follows it in
    `rest` is the end, an `open` or a `close`.
   */
  lemma CutTwice(rest: string, open: string, close: string)
    requires |open| > 0 && |close| > 0
    ensures var p1 := Split(rest, open)[0];
            var section := Split(p1, close)[0];
            && |section| <= |rest| && section == rest[..|section|]
            && (forall i :: 0 <= i < |section| ==> !OccursAt(rest, open, i))
            && !Contains(section, open) && !Contains(section, close)
            && (|section| == |rest| || OccursAt(rest, open, |section|) || OccursAt(rest, close, |section|))
  {
    var p1 := Split(rest, open)[0];
    var section := Split(p1, close)[0];
    CutPrefix(rest, open, close);
    PrefixBeforeFirst(rest, open, |section|);
    CutEnd(rest, open, close);
  }

  /** The double cut is a prefix of the first cut, which is a prefix of the text. */
  lemma CutPrefix(rest: string, open: string, close: string)
    requires |open| > 0 && |close| > 0
    ensures var p1 := Split(rest, open)[0];
            var section := Split(p1, close)[0];
            && |section| <= |p1| <= |rest| && p1 == rest[..|p1|] && section == p1[..|section|]
            && section == rest[..|section|]
            && (forall i :: 0 <= i < |section| ==> !OccursAt(rest, open, i))
  {
    var p1 := Split(rest, open)[0];
    FirstPiecePrefix(rest, open);
    FirstPiecePrefix(p1, close);
  }

  /** The double cut ends at the end of the text, at an `open` or at a `close`. */
  lemma CutEnd(rest: string, open: string, close: string)
    requires |open| > 0 && |close| > 0
    ensures var p1 := Split(rest, open)[0];
            var section := Split(p1, close)[0];
            |section| == |rest| || OccursAt(rest, open, |section|) || OccursAt(rest, close, |section|)
  {
    var p1 := Split(rest, open)[0];
    var section := Split(p1, close)[0];
    CutPrefix(rest, open, close);
    if |section| < |p1| {
      FirstPieceEnd(p1, close);
      assert OccursAt(p1, close, |section|);
      assert p1[|section|..|section| + |close|] == rest[|section|..|section| + |close|];
    } else if |p1| < |rest| {
      FirstPieceEnd(rest, open);
    }
  }

  /** `s.split(open)[1].split(close)[0]` is the double cut of the text after the first `open`. */
  lemma SectionBetween(s: string, open: string, close: string)
    requires |open| > 0 && |close| > 0 && Contains(s, open)
    ensures var t := Split(s, open)[0];
            && |Split(s, open)| > 1
            && |t| + |open| <= |s| && OccursAt(s, open, |t|)
            && Split(Split(s, open)[1], close)[0] == Split(Split(s[|t| + |open|..], open)[0], close)[0]
  {
    FirstPieceEnd(s, open);
  }

  /**
    The table section is the text before the first `DELIMITER //`; the
    procedure section exists exactly when there is one, and is the text after
    it up to the next `DELIMITER //` or `DELIMITER ;`, whichever comes first:
    it holds neither marker, so later `DELIMITER //` sections are ignored.
   */
  lemma SectionsLocated(sqlContent: string)
    ensures var t := TableSection(sqlContent);
            && |t| <= |sqlContent| && t == sqlContent[..|t|]
            && (forall i :: 0 <= i < |t| ==> !OccursAt(sqlContent, OpenDelimiter, i))
            && (ProcedureSection(sqlContent).None? <==> !Contains(sqlContent, OpenDelimiter))
            && (ProcedureSection(sqlContent).None? ==> t == sqlContent)
            && (ProcedureSection(sqlContent).Some? ==>
                  && |t| + |OpenDelimiter| <= |sqlContent|
                  && OccursAt(sqlContent, OpenDelimiter, |t|)
                  && var rest := sqlContent[|t| + |OpenDelimiter|..];
                     var section := ProcedureSection(sqlContent).value;
                     && |section| <= |rest| && section == rest[..|section|]
                     && (forall i :: 0 <= i < |section| ==> !OccursAt(rest, OpenDelimiter, i))
                     && !Contains(section, OpenDelimiter)
                     && !Contains(section, CloseDelimiter)
                     && (|section| == |rest| || OccursAt(rest, OpenDelimiter, |section|)
                         || OccursAt(rest, CloseDelimiter, |section|)))
  {
    FirstPiecePrefix(sqlContent, OpenDelimiter);
    FirstPieceEnd(sqlContent, OpenDelimiter);
    if Contains(sqlContent, OpenDelimiter) {
      var t := TableSection(sqlContent);
      SectionBetween(sqlContent, OpenDelimiter, CloseDelimiter);
      CutTwice(sqlContent[|t| + |OpenDelimiter|..], OpenDelimiter, CloseDelimiter);
    }
  }

  /** A substring of a text that avoids `pat` avoids `pat` too. */
  lemma SubstringAvoids(s: string, p: string, pat: string)
    requires Contains(s, p) && !Contains(s, pat)
    ensures !Contains(p, pat)
  {
    if Contains(p, pat) {
      ContainsTransitive(s, p, pat);
      assert false;
    }
  }

  /** The stripped text occurs inside the original. */
  lemma StripOccurs(s: string)
    ensures Contains(s, Strip(s))
  {
    var k :| StrippedAt(s, Strip(s), k);
    assert OccursAt(s, Strip(s), k);
  }

  /**
    A procedure is executed exactly when it is the stripped, non-empty form
    of a `//`-separated piece of the procedure section that mentions
    `CREATE PROCEDURE` or `CREATE FUNCTION` once upper-cased.
   */
  lemma ProceduresToCreateIff(sqlContent: string, x: string)
    ensures x in ProceduresToCreate(sqlContent) <==>
              && ProcedureSection(sqlContent).Some?
              && x != "" && DefinesRoutine(x)
              && exists p :: p in Split(ProcedureSection(sqlContent).value, ProcedureSeparator) && Strip(p) == x
  {
  }

  /**
    Every executed procedure is non-empty, already stripped, free of `//`,
    defines a routine, and is a piece of text taken from the procedure
    section.
   */
  lemma ProcedureShape(sqlContent: string, x: string)
    requires x in ProceduresToCreate(sqlContent)
    ensures ProcedureSection(sqlContent).Some?
    ensures x != "" && Strip(x) == x && !Contains(x, ProcedureSeparator) && DefinesRoutine(x)
    ensures Contains(ProcedureSection(sqlContent).value, x)
  {
    ProceduresToCreateIff(sqlContent, x);
    var section := ProcedureSection(sqlContent).value;
    var pieces := Split(section, ProcedureSeparator);
    var p :| p in pieces && Strip(p) == x;
    StripIdempotent(p);
    StripOccurs(p);
    SplitPiecesOccur(section, ProcedureSeparator);
    ContainsTransitive(section, p, x);
    var i :| 0 <= i < |pieces| && pieces[i] == p;
    if Contains(x, ProcedureSeparator) {
      ContainsTransitive(p, x, ProcedureSeparator);
      assert false;
    }
  }
}
