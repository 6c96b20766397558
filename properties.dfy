/** What the extraction promises, proved about the specification in module
    Grades: how each kind of table and row changes the course record, that a
    failure is confined to the rest of its table, when a record is returned,
    and which records the scraper collects. */
module GradeProperties {
  import opened Text
  import opened Grades

  // ---------------------------------------------------------------------
  // Rows (renweb_scraper.py:111-163).

  /** A row whose cells are all blank after stripping, the empty row
      included, changes nothing; processing goes on with the next row. */
  lemma BlankRowChangesNothing(c: Course, current: Option<string>, row: seq<string>, rest: seq<seq<string>>, percentage: Percentage)
    requires current.Some? ==> current.value in c.categories
    requires forall i :: 0 <= i < |row| ==> AllSpace(row[i])
    ensures RunRows(c, current, [row] + rest, percentage) == RunRows(c, current, rest, percentage)
  {
    var cells := CellTexts(row);
    forall i | 0 <= i < |cells| ensures cells[i] == "" {
      StripTrims(row[i]);
    }
    assert ([row] + rest)[1..] == rest;
  }

  /** A row whose first cell mentions "category average" sets the current
      category's average to its second cell when there is a current category
      and a second cell, and otherwise changes nothing; it is never read as
      a term grade or an assignment, whatever else it says. */
  lemma AverageRowEffect(c: Course, current: Option<string>, row: seq<string>, percentage: Percentage)
    requires current.Some? ==> current.value in c.categories
    requires |row| > 0 && IsAverageLabel(Strip(row[0]))
    ensures var cells := CellTexts(row);
      RunRows(c, current, [row], percentage) ==
        if Truthy(current) && |row| >= 2 then
          var k := current.value;
          c.(categories := c.categories[k := c.categories[k].(categoryAverage := Some(cells[1]))])
        else c
  {
    var cells := CellTexts(row);
    assert cells[0] != "";
  }

  /** A row whose first cell mentions "term grade" (and not "category
      average") sets the term grade to its second and third cells when it
      has three cells, and otherwise changes nothing: the letter is always
      the third cell, never the empty default. It is never an assignment. */
  lemma TermGradeRowEffect(c: Course, current: Option<string>, row: seq<string>, percentage: Percentage)
    requires current.Some? ==> current.value in c.categories
    requires |row| > 0 && !IsAverageLabel(Strip(row[0])) && IsTermLabel(Strip(row[0]))
    ensures var cells := CellTexts(row);
      RunRows(c, current, [row], percentage) ==
        if |row| >= 3 then c.(termGrade := Some(TermGrade(cells[1], cells[2]))) else c
  {
    var cells := CellTexts(row);
    assert cells[0] != "";
  }

  /** Any other non-blank row: with a current category and at least five
      cells it appends an assignment built from cells 0, 1, 2, 4 and the
      optional sixth, whose percentage is `None` exactly when the points or
      the maximum is empty; it raises when both are given and the percentage
      cannot be computed; otherwise it is ignored. */
  lemma AssignmentRowEffect(cells: seq<string>, current: Option<string>, percentage: Percentage)
    requires AnyText(cells) && !IsAverageLabel(cells[0]) && !IsTermLabel(cells[0])
    ensures var e := InterpretRow(cells, current, percentage);
      if Truthy(current) && |cells| >= 5 then
        var due := if |cells| > 5 then Some(cells[5]) else None;
        if cells[1] == "" || cells[2] == "" then
          e == Append(current.value, Assignment(cells[0], cells[1], cells[2], None, cells[4], due))
        else if percentage(cells[1], cells[2]).None? then
          e == Raises
        else
          e == Append(current.value, Assignment(cells[0], cells[1], cells[2], percentage(cells[1], cells[2]), cells[4], due))
      else e == Ignored
  {
  }

  /** An assignment row under a current category, with five cells and a
      percentage that does not raise, appends its assignment at the end of
      that category's list; nothing else in the record changes. */
  lemma AssignmentRowAppends(c: Course, current: Option<string>, row: seq<string>, percentage: Percentage)
    requires current.Some? ==> current.value in c.categories
    requires Truthy(current) && |row| >= 5
    requires var cells := CellTexts(row);
      AnyText(cells) && !IsAverageLabel(cells[0]) && !IsTermLabel(cells[0])
      && (cells[1] != "" && cells[2] != "" ==> percentage(cells[1], cells[2]).Some?)
    ensures var cells := CellTexts(row);
      var percent := if cells[1] != "" && cells[2] != "" then percentage(cells[1], cells[2]) else None;
      var due := if |cells| > 5 then Some(cells[5]) else None;
      var k := current.value;
      RunRows(c, current, [row], percentage) ==
        c.(categories := c.categories[k := c.categories[k].(assignments :=
          c.categories[k].assignments + [Assignment(cells[0], cells[1], cells[2], percent, cells[4], due)])])
  {
    AssignmentRowEffect(CellTexts(row), current, percentage);
  }

  /** The row ["Essay 1", "18", "20", "", "Graded", "2024-05-01"] under the
      category "homework" is the assignment "Essay 1" with points 18 of 20,
      status "Graded" and due date "2024-05-01"; its percentage is whatever
      the computation yields, and the row raises when that fails. */
  lemma EssayRowExample(percentage: Percentage)
    ensures var e := InterpretRow(["Essay 1", "18", "20", "", "Graded", "2024-05-01"], Some("homework"), percentage);
      match percentage("18", "20")
      case None => e == Raises
      case Some(p) => e == Append("homework", Assignment("Essay 1", "18", "20", Some(p), "Graded", Some("2024-05-01")))
  {
    var cells := ["Essay 1", "18", "20", "", "Graded", "2024-05-01"];
    assert cells[0] != "";
    ShortDoesNotContain(Lower(cells[0]), "category average");
    ShortDoesNotContain(Lower(cells[0]), "term grade");
    AssignmentRowEffect(cells, Some("homework"), percentage);
  }

  /** A row that raises abandons itself and every later row of its table:
      the table ends as it stood after the rows before it. */
  lemma {:induction false} RaisingRowAbandonsRest(c: Course, current: Option<string>, rows: seq<seq<string>>, k: nat, percentage: Percentage)
    requires current.Some? ==> current.value in c.categories
    requires k < |rows| && InterpretRow(CellTexts(rows[k]), current, percentage).Raises?
    ensures RunRows(c, current, rows, percentage) == RunRows(c, current, rows[..k], percentage)
    decreases k
  {
    var e := InterpretRow(CellTexts(rows[0]), current, percentage);
    if k == 0 {
      assert rows[..k] == [];
    } else {
      assert rows[..k][0] == rows[0];
      if !e.Raises? {
        var next := ApplyRow(c, e);
        assert rows[1..][k - 1] == rows[k];
        assert rows[..k][1..] == rows[1..][..k - 1];
        assert RunRows(c, current, rows, percentage) == RunRows(next, current, rows[1..], percentage);
        assert RunRows(c, current, rows[..k], percentage) == RunRows(next, current, rows[..k][1..], percentage);
        RaisingRowAbandonsRest(next, current, rows[1..], k - 1, percentage);
      }
    }
  }

  /** Rows only add: no assignment already in a category is removed or
      changed, whether or not a later row raises. */
  lemma {:induction false} RowsKeepAssignments(c: Course, current: Option<string>, rows: seq<seq<string>>, percentage: Percentage)
    requires current.Some? ==> current.value in c.categories
    ensures var r := RunRows(c, current, rows, percentage);
      forall k :: k in c.categories ==> c.categories[k].assignments <= r.categories[k].assignments
    decreases |rows|
  {
    if rows != [] {
      var e := InterpretRow(CellTexts(rows[0]), current, percentage);
      if !e.Raises? {
        var next := ApplyRow(c, e);
        RowsKeepAssignments(next, current, rows[1..], percentage);
        forall k | k in c.categories
          ensures c.categories[k].assignments <= next.categories[k].assignments
        {
        }
      }
    }
  }

  // ---------------------------------------------------------------------
  // Tables (renweb_scraper.py:85-108).

  /** Cutting a table's rows just before a raising row leaves what the
      rows after the header do unchanged. */
  lemma RowsAfterHeaderStopAt(c: Course, current: Option<string>, rows: seq<seq<string>>, k: nat, percentage: Percentage)
    requires current.Some? ==> current.value in c.categories
    requires 1 <= k < |rows| && InterpretRow(CellTexts(rows[k]), current, percentage).Raises?
    ensures RunRows(c, current, AfterHeader(rows), percentage) == RunRows(c, current, AfterHeader(rows[..k]), percentage)
  {
    var body := rows[1..];
    assert body[k - 1] == rows[k];
    RaisingRowAbandonsRest(c, current, body, k - 1, percentage);
    assert AfterHeader(rows[..k]) == body[..k - 1];
  }

  /** A raising row ends its table only: the table leaves the record as the
      rows before it did, keeps the current category, and the tables after
      it are processed from there. */
  lemma RaisingRowEndsTable(p: Progress, t: Table, k: nat, percentage: Percentage)
    requires ValidProgress(p) && Classify(t).AssignmentTable?
    requires 1 <= k < |t.rows| && InterpretRow(CellTexts(t.rows[k]), p.current, percentage).Raises?
    ensures var r := RunTable(p, t, percentage);
      && r == RunTable(p, t.(rows := t.rows[..k]), percentage)
      && r.current == p.current
  {
    var cut := t.(rows := t.rows[..k]);
    RowsAfterHeaderStopAt(p.course, p.current, t.rows, k, percentage);
    assert Classify(cut) == Classify(t) by {
      assert cut.text == t.text && cut.firstCell == t.firstCell;
    }
  }

  /** A table whose text has a category keyword starts a category named by
      the text's last word: it becomes the current category, its entry is
      replaced by an empty one (whatever an earlier table of the same name
      put there), it keeps its place in the order if it had one, and nothing
      else changes. The header cell is not consulted. */
  lemma HeaderTableResetsCategory(p: Progress, t: Table, percentage: Percentage)
    requires ValidProgress(p) && HasKeyword(TableText(t.text))
    ensures var name := CategoryName(TableText(t.text));
      var r := RunTable(p, t, percentage);
      && r.current == Some(name)
      && r.course.categories == p.course.categories[name := EmptyCategory]
      && r.course.termGrade == p.course.termGrade
      && r.course.order == if name in p.course.categories then p.course.order else p.course.order + [name]
  {
  }

  /** The category is named by the table text's last word, whatever comes
      before it: "homework assignments" starts the category "assignments". */
  lemma CategoryNameIsLastWord(before: string, word: string)
    requires word != [] && NoSpace(word)
    requires before == [] || IsSpace(before[|before| - 1])
    requires HasKeyword(before + word)
    ensures CategoryName(before + word) == word
  {
    WordsEndWith(before, word);
  }

  /** A table with no category keyword and no header exactly "assignment"
      changes nothing, the current category included. */
  lemma UnrecognizedTableChangesNothing(p: Progress, t: Table, percentage: Percentage)
    requires ValidProgress(p)
    requires !HasKeyword(TableText(t.text)) && "assignment" !in Headers(t.firstCell)
    ensures RunTable(p, t, percentage) == p
  {
  }

  /** The first row of a table is never interpreted: replacing it leaves
      the outcome unchanged. */
  lemma HeaderRowNeverInterpreted(p: Progress, t: Table, header: seq<string>, percentage: Percentage)
    requires ValidProgress(p) && |t.rows| > 0
    ensures RunTable(p, t.(rows := [header] + t.rows[1..]), percentage) == RunTable(p, t, percentage)
  {
    assert ([header] + t.rows[1..])[1..] == t.rows[1..];
  }

  /** Tables are processed in order, each from the state the previous ones
      left, whatever happened inside them. */
  lemma {:induction false} TablesCompose(p: Progress, a: seq<Table>, b: seq<Table>, percentage: Percentage)
    requires ValidProgress(p)
    ensures RunTables(p, a + b, percentage) == RunTables(RunTables(p, a, percentage), b, percentage)
    decreases |a|
  {
    if a == [] {
      assert a + b == b;
    } else {
      var next := RunTable(p, a[0], percentage);
      assert (a + b)[0] == a[0];
      assert (a + b)[1..] == a[1..] + b;
      assert RunTables(p, a + b, percentage) == RunTables(next, a[1..] + b, percentage);
      assert RunTables(p, a, percentage) == RunTables(next, a[1..], percentage);
      TablesCompose(next, a[1..], b, percentage);
    }
  }

  /** The name of the last category-header table of `tables`, or `before`
      when there is none. */
  function LastHeader(tables: seq<Table>, before: Option<string>): Option<string> {
    if tables == [] then before
    else
      match Classify(tables[|tables| - 1])
      case CategoryHeader(name) => Some(name)
      case _ => LastHeader(tables[..|tables| - 1], before)
  }

  /** `current_category` carries across tables: after any tables it is the
      name of the last category header among them, or what it was before. */
  lemma {:induction false} CurrentIsLastHeader(p: Progress, tables: seq<Table>, percentage: Percentage)
    requires ValidProgress(p)
    ensures RunTables(p, tables, percentage).current == LastHeader(tables, p.current)
    decreases |tables|
  {
    if tables != [] {
      var n := |tables| - 1;
      assert tables == tables[..n] + [tables[n]];
      TablesCompose(p, tables[..n], [tables[n]], percentage);
      CurrentIsLastHeader(p, tables[..n], percentage);
    }
  }

  /** Tables that are all unrecognised change nothing. */
  lemma {:induction false} UnrecognizedTablesChangeNothing(p: Progress, tables: seq<Table>, percentage: Percentage)
    requires ValidProgress(p)
    requires forall i :: 0 <= i < |tables| ==> Classify(tables[i]).Unrecognized?
    ensures RunTables(p, tables, percentage) == p
    decreases |tables|
  {
    if tables != [] {
      assert Classify(tables[0]).Unrecognized?;
      UnrecognizedTablesChangeNothing(p, tables[1..], percentage);
    }
  }

  // ---------------------------------------------------------------------
  // The course record (renweb_scraper.py:169-173).

  /** A frame with a category-header table yields a course record, even if
      that category never receives an assignment. */
  lemma HeaderTableYieldsCourse(f: Frame, i: nat, percentage: Percentage)
    requires i < |f.tables| && HasKeyword(TableText(f.tables[i].text))
    ensures ExtractGrades(f, percentage).Some?
  {
    var start := Start(CourseInfoOf(f.bodyLines));
    var ts := f.tables;
    assert ts == ts[..i] + ([ts[i]] + ts[i + 1..]);
    TablesCompose(start, ts[..i], [ts[i]] + ts[i + 1..], percentage);
    var mid := RunTables(start, ts[..i], percentage);
    TablesCompose(mid, [ts[i]], ts[i + 1..], percentage);
    var name := CategoryName(TableText(ts[i].text));
    assert name in RunTables(mid, [ts[i]], percentage).course.categories;
  }

  /** A frame whose tables are all unrecognised yields no record. */
  lemma UnrecognizedFrameYieldsNothing(f: Frame, percentage: Percentage)
    requires forall i :: 0 <= i < |f.tables| ==> Classify(f.tables[i]).Unrecognized?
    ensures ExtractGrades(f, percentage) == None
  {
    UnrecognizedTablesChangeNothing(Start(CourseInfoOf(f.bodyLines)), f.tables, percentage);
  }

  // ---------------------------------------------------------------------
  // The frames (renweb_scraper.py:200-215).

  /** Appending one part appends its elements. */
  lemma ConcatSnoc<T>(parts: seq<seq<T>>, part: seq<T>)
    ensures Concat(parts + [part]) == Concat(parts) + part
  {
    assert (parts + [part])[..|parts|] == parts;
  }

  /** Concatenating two runs of parts is concatenating each, in order. */
  lemma {:induction false} ConcatAppend<T>(a: seq<seq<T>>, b: seq<seq<T>>)
    ensures Concat(a + b) == Concat(a) + Concat(b)
    decreases |b|
  {
    if b == [] {
      assert a + b == a;
    } else {
      var n := |b| - 1;
      assert a + b == (a + b[..n]) + [b[n]];
      assert b == b[..n] + [b[n]];
      ConcatSnoc(a + b[..n], b[n]);
      ConcatSnoc(b[..n], b[n]);
      ConcatAppend(a, b[..n]);
    }
  }

  /** An element is in the concatenation exactly when it is in some part. */
  lemma {:induction false} ConcatMembership<T>(parts: seq<seq<T>>, x: T)
    ensures x in Concat(parts) <==> exists i :: 0 <= i < |parts| && x in parts[i]
    decreases |parts|
  {
    if parts != [] {
      var n := |parts| - 1;
      ConcatMembership(parts[..n], x);
      if x in Concat(parts[..n]) {
        var i :| 0 <= i < n && x in parts[..n][i];
        assert parts[..n][i] == parts[i];
      }
      if exists i :: 0 <= i < |parts| && x in parts[i] {
        var i :| 0 <= i < |parts| && x in parts[i];
        if i < n {
          assert parts[..n][i] == parts[i];
        }
      }
    }
  }

  /** Parts of at most one element concatenate to at most one element per part. */
  lemma {:induction false} ConcatLength<T>(parts: seq<seq<T>>)
    requires forall i :: 0 <= i < |parts| ==> |parts[i]| <= 1
    ensures |Concat(parts)| <= |parts|
    decreases |parts|
  {
    if parts != [] {
      var n := |parts| - 1;
      assert forall i :: 0 <= i < n ==> parts[..n][i] == parts[i];
      ConcatLength(parts[..n]);
    }
  }

  /** Each frame adds at most one record. */
  lemma AtMostOneRecordPerFrame(frames: seq<Frame>, percentage: Percentage)
    ensures |Collected(frames, percentage)| <= |frames|
  {
    ConcatLength(Yields(frames, percentage));
  }

  /** The contributions of two runs of frames are those of each, in order. */
  lemma YieldsAppend(a: seq<Frame>, b: seq<Frame>, percentage: Percentage)
    ensures Yields(a + b, percentage) == Yields(a, percentage) + Yields(b, percentage)
  {
    var ys, ya, yb := Yields(a + b, percentage), Yields(a, percentage), Yields(b, percentage);
    forall i | 0 <= i < |a + b|
      ensures ys[i] == (ya + yb)[i]
    {
      if i < |a| {
        assert (a + b)[i] == a[i];
      } else {
        assert (a + b)[i] == b[i - |a|];
      }
    }
  }

  /** One more frame appends exactly what it contributes. */
  lemma CollectedStep(frames: seq<Frame>, percentage: Percentage)
    requires frames != []
    ensures var n := |frames| - 1;
      Collected(frames, percentage) == Collected(frames[..n], percentage) + FrameYield(frames[n], percentage)
  {
    var n := |frames| - 1;
    assert frames == frames[..n] + [frames[n]];
    YieldsAppend(frames[..n], [frames[n]], percentage);
    ConcatSnoc(Yields(frames[..n], percentage), FrameYield(frames[n], percentage));
  }

  /** Collection keeps frame order: collecting over two runs of frames is
      collecting over each, the first run's records first. */
  lemma CollectedConcat(a: seq<Frame>, b: seq<Frame>, percentage: Percentage)
    ensures Collected(a + b, percentage) == Collected(a, percentage) + Collected(b, percentage)
  {
    YieldsAppend(a, b, percentage);
    ConcatAppend(Yields(a, percentage), Yields(b, percentage));
  }

  /** A record is collected exactly when some frame contributes it. */
  lemma CollectedMembership(frames: seq<Frame>, c: Course, percentage: Percentage)
    ensures c in Collected(frames, percentage) <==>
      exists i :: 0 <= i < |frames| && c in FrameYield(frames[i], percentage)
  {
    ConcatMembership(Yields(frames, percentage), c);
  }

  /** What a frame contributes: its record when its URL is a grades URL
      and the record is not `None`, and nothing otherwise. */
  lemma FrameYieldMembership(f: Frame, c: Course, percentage: Percentage)
    ensures c in FrameYield(f, percentage) <==> IsGradesUrl(f.url) && ExtractGrades(f, percentage) == Some(c)
  {
  }

  /** Any URL with "/GradeBook/" in it, in exactly that case, is a grades URL. */
  lemma GradeBookPathIsGradesUrl(before: string, after: string)
    ensures IsGradesUrl(before + "/GradeBook/" + after)
  {
    ContainsInside(before, "/GradeBook/", after);
  }

  /** Any URL with "grades.cfm" in it, in any mix of upper and lower case,
      is a grades URL. */
  lemma GradesCfmIsGradesUrl(before: string, name: string, after: string)
    requires Lower(name) == "grades.cfm"
    ensures IsGradesUrl(before + name + after)
  {
    LowerAppend(before + name, after);
    LowerAppend(before, name);
    ContainsInside(Lower(before), "grades.cfm", Lower(after));
  }

  /** The scraper returns `None` exactly when no frame both has a grades URL
      and yields a record. */
  lemma ScrapeNoneIff(frames: seq<Frame>, percentage: Percentage)
    ensures ScrapeResult(frames, percentage).None? <==>
      forall i :: 0 <= i < |frames| ==> !IsGradesUrl(frames[i].url) || ExtractGrades(frames[i], percentage).None?
  {
    var cs := Collected(frames, percentage);
    if cs != [] {
      CollectedMembership(frames, cs[0], percentage);
      var i :| 0 <= i < |frames| && cs[0] in FrameYield(frames[i], percentage);
      FrameYieldMembership(frames[i], cs[0], percentage);
    } else {
      forall i | 0 <= i < |frames| && IsGradesUrl(frames[i].url)
        ensures ExtractGrades(frames[i], percentage).None?
      {
        if ExtractGrades(frames[i], percentage).Some? {
          var c := ExtractGrades(frames[i], percentage).value;
          FrameYieldMembership(frames[i], c, percentage);
          CollectedMembership(frames, c, percentage);
        }
      }
    }
  }
}
