/** The grade report that `extract_grades_from_iframe` and `scrape_grades`
    build, and a functional specification of how they build it: a fold over
    a frame's tables, and inside an assignment table a fold over its rows.
    The imperative code in module Scraper is proved equal to these functions;
    module GradeProperties proves what they promise. */
module Grades {
  import opened Text

  datatype Option<T> = None | Some(value: T)

  /** What `str(round(float(points) / float(max_points) * 100, 2))` yields:
      `Some(text)`, or `None` when `float()` rejects an operand or the
      division is by zero, that is, when the expression raises. Floating
      point is not modelled, so the computation is a parameter. */
  type Percentage = (string, string) -> Option<string>

  // ---------------------------------------------------------------------
  // What the browser hands over, as text.

  /** One `<table>` of a frame: its `inner_text()`, the `inner_text()` of its
      first `th` or `td` cell if it has one (`locator("th,td").first`), and
      for each `tr` the `inner_text()` of its `td` cells. */
  datatype Table = Table(text: string, firstCell: Option<string>, rows: seq<seq<string>>)

  /** One frame of the grades page: its URL, the lines of its body's
      `inner_text()` (split at newlines), and its tables in document order. */
  datatype Frame = Frame(url: string, bodyLines: seq<string>, tables: seq<Table>)

  // ---------------------------------------------------------------------
  // The course record (the `grades_data` dictionary).

  datatype CourseInfo = CourseInfo(courseName: string, teacherName: string, term: string)

  datatype Assignment = Assignment(
    name: string,
    points: string,
    maxPoints: string,
    percentage: Option<string>,
    status: string,
    dueDate: Option<string>)

  datatype Category = Category(assignments: seq<Assignment>, categoryAverage: Option<string>)

  datatype TermGrade = TermGrade(score: string, letter: string)

  /** `order` lists the keys of `categories` in the order the dictionary
      iterates them: the order in which each key was first inserted. */
  datatype Course = Course(
    courseInfo: CourseInfo,
    order: seq<string>,
    categories: map<string, Category>,
    termGrade: Option<TermGrade>)

  ghost predicate Distinct(s: seq<string>) {
    forall i, j :: 0 <= i < j < |s| ==> s[i] != s[j]
  }

  /** `order` holds every key of `categories` exactly once, and nothing else. */
  ghost predicate Consistent(c: Course) {
    Distinct(c.order) && forall k :: k in c.categories <==> k in c.order
  }

  const EmptyCategory := Category([], None)

  /** `grades_data["categories"][name] = {"assignments": [], "category_average": None}`:
      a new key goes to the end of the iteration order, an existing key keeps
      its place and loses its contents. */
  function ResetCategory(c: Course, name: string): (r: Course)
    ensures Consistent(c) ==> Consistent(r)
    ensures r.order == if name in c.categories then c.order else c.order + [name]
    ensures r.courseInfo == c.courseInfo && r.termGrade == c.termGrade
    ensures name in r.categories && r.categories[name] == EmptyCategory
    ensures forall k :: k != name ==> (k in r.categories <==> k in c.categories)
    ensures forall k :: k != name && k in c.categories ==> r.categories[k] == c.categories[k]
  {
    var order := if name in c.categories then c.order else c.order + [name];
    assert forall i :: 0 <= i < |c.order| ==> order[i] == c.order[i];
    c.(order := order, categories := c.categories[name := EmptyCategory])
  }

  // ---------------------------------------------------------------------
  // Course information (renweb_scraper.py:66-74).

  /** The first three body lines; a missing one becomes the empty string. */
  function CourseInfoOf(lines: seq<string>): (info: CourseInfo)
    ensures var fields := [info.courseName, info.teacherName, info.term];
      forall k :: 0 <= k < 3 ==> fields[k] == if k < |lines| then lines[k] else ""
  {
    var first := lines[..if |lines| < 3 then |lines| else 3];
    CourseInfo(
      if |first| > 0 then first[0] else "",
      if |first| > 1 then first[1] else "",
      if |first| > 2 then first[2] else "")
  }

  // ---------------------------------------------------------------------
  // Table classification (renweb_scraper.py:87-108).

  const CategoryKeywords: seq<string> := ["classwork", "homework", "projects", "quizzes", "tests"]

  /** `table.inner_text().strip().lower()` */
  function TableText(raw: string): string {
    Lower(Strip(raw))
  }

  predicate HasKeyword(text: string) {
    exists i :: 0 <= i < |CategoryKeywords| && Contains(text, CategoryKeywords[i])
  }

  /** The header list: at most one entry, from the table's first cell. */
  function Headers(firstCell: Option<string>): (hs: seq<string>)
    ensures |hs| <= 1
  {
    match firstCell
    case None => []
    case Some(cell) => [Lower(Strip(cell))]
  }

  /** `table_text.split()[-1].strip()`: the last whitespace-delimited word. */
  function CategoryName(text: string): (name: string)
    requires HasKeyword(text)
    ensures |Words(text)| > 0 && name == Words(text)[|Words(text)| - 1]
    ensures name != "" && NoSpace(name)
  {
    var i :| 0 <= i < |CategoryKeywords| && Contains(text, CategoryKeywords[i]);
    assert HasNonSpace(CategoryKeywords[i]) by {
      assert !IsSpace(CategoryKeywords[i][0]);
    }
    ContainsNonSpace(text, CategoryKeywords[i]);
    WordsOfNonBlank(text);
    var ws := Words(text);
    LastWord(ws);
    StripWord(ws[|ws| - 1]);
    Strip(ws[|ws| - 1])
  }

  datatype TableKind = CategoryHeader(name: string) | AssignmentTable | Unrecognized

  /** The keyword test comes first; only a table without a keyword can be an
      assignment table, and only through its first cell. */
  function Classify(t: Table): (k: TableKind)
    ensures k.CategoryHeader? <==> HasKeyword(TableText(t.text))
    ensures k.CategoryHeader? ==> k.name == CategoryName(TableText(t.text))
    ensures k.AssignmentTable? <==>
      !HasKeyword(TableText(t.text)) && t.firstCell.Some? && Lower(Strip(t.firstCell.value)) == "assignment"
  {
    var text := TableText(t.text);
    if HasKeyword(text) then CategoryHeader(CategoryName(text))
    else if "assignment" in Headers(t.firstCell) then AssignmentTable
    else Unrecognized
  }

  // ---------------------------------------------------------------------
  // Row interpretation (renweb_scraper.py:111-163).

  /** `[cell.inner_text().strip() for cell in cells]` */
  function CellTexts(row: seq<string>): (cells: seq<string>)
    ensures |cells| == |row|
    ensures forall i :: 0 <= i < |row| ==> cells[i] == Strip(row[i])
  {
    seq(|row|, i requires 0 <= i < |row| => Strip(row[i]))
  }

  /** `any(cell_texts)`: some cell is a non-empty string. */
  predicate AnyText(cells: seq<string>) {
    exists i :: 0 <= i < |cells| && cells[i] != ""
  }

  /** Python truthiness of `current_category`: set and non-empty. */
  predicate Truthy(current: Option<string>) {
    current.Some? && current.value != ""
  }

  predicate IsAverageLabel(cell: string) {
    Contains(Lower(cell), "category average")
  }

  predicate IsTermLabel(cell: string) {
    Contains(Lower(cell), "term grade")
  }

  /** What one row does to the course record. `Raises` is the row whose
      percentage computation raised. */
  datatype RowEffect =
    | Skip
    | SetAverage(category: string, average: string)
    | SetTerm(grade: TermGrade)
    | Append(category: string, assignment: Assignment)
    | Ignored
    | Raises

  /** The row cascade: blank, then category average, then term grade, then
      assignment; each recognised kind is guarded by a cell count. */
  function InterpretRow(cells: seq<string>, current: Option<string>, percentage: Percentage): (e: RowEffect)
    ensures e.Skip? <==> !AnyText(cells)
    ensures e.SetAverage? ==> Truthy(current) && e.category == current.value && |cells| >= 2
    ensures e.Append? ==> Truthy(current) && e.category == current.value && |cells| >= 5
    ensures e.SetTerm? ==> |cells| >= 3
  {
    if !AnyText(cells) then Skip
    else if IsAverageLabel(cells[0]) then
      if Truthy(current) && |cells| > 1 then SetAverage(current.value, cells[1]) else Ignored
    else if IsTermLabel(cells[0]) then
      // The `else ""` of the source is unreachable behind `len > 2`.
      if |cells| > 2 then SetTerm(TermGrade(cells[1], if |cells| > 2 then cells[2] else "")) else Ignored
    else if Truthy(current) && |cells| >= 5 then
      var due := if |cells| > 5 then Some(cells[5]) else None;
      if cells[1] != "" && cells[2] != "" then
        match percentage(cells[1], cells[2])
        case None => Raises
        case Some(p) => Append(current.value, Assignment(cells[0], cells[1], cells[2], Some(p), cells[4], due))
      else
        Append(current.value, Assignment(cells[0], cells[1], cells[2], None, cells[4], due))
    else Ignored
  }

  /** The categories a row effect writes to exist. */
  predicate Fits(c: Course, e: RowEffect) {
    (e.SetAverage? ==> e.category in c.categories) && (e.Append? ==> e.category in c.categories)
  }

  /** The in-place update a row effect makes. */
  function ApplyRow(c: Course, e: RowEffect): (r: Course)
    requires Fits(c, e)
    ensures r.courseInfo == c.courseInfo && r.order == c.order
    ensures r.categories.Keys == c.categories.Keys
  {
    match e
    case SetAverage(k, v) =>
      c.(categories := c.categories[k := c.categories[k].(categoryAverage := Some(v))])
    case SetTerm(g) =>
      c.(termGrade := Some(g))
    case Append(k, a) =>
      c.(categories := c.categories[k := c.categories[k].(assignments := c.categories[k].assignments + [a])])
    case _ => c
  }

  /** The rows of an assignment table after its header row, in order, until
      one raises: that row and the rest are abandoned, and what the earlier
      rows did stays. */
  function RunRows(c: Course, current: Option<string>, rows: seq<seq<string>>, percentage: Percentage): (r: Course)
    requires current.Some? ==> current.value in c.categories
    ensures r.courseInfo == c.courseInfo && r.order == c.order
    ensures r.categories.Keys == c.categories.Keys
    decreases |rows|
  {
    if rows == [] then c
    else
      var e := InterpretRow(CellTexts(rows[0]), current, percentage);
      if e.Raises? then c
      else RunRows(ApplyRow(c, e), current, rows[1..], percentage)
  }

  // ---------------------------------------------------------------------
  // Tables and the whole frame (renweb_scraper.py:78-173).

  /** The state the table loop carries: the course record and `current_category`. */
  datatype Progress = Progress(course: Course, current: Option<string>)

  ghost predicate ValidProgress(p: Progress) {
    Consistent(p.course)
    && (p.current.Some? ==> p.current.value != "" && p.current.value in p.course.categories)
  }

  function Start(info: CourseInfo): (p: Progress)
    ensures ValidProgress(p)
  {
    Progress(Course(info, [], map[], None), None)
  }

  /** `rows[1:]` */
  function AfterHeader(rows: seq<seq<string>>): seq<seq<string>> {
    if rows == [] then [] else rows[1..]
  }

  function RunTable(p: Progress, t: Table, percentage: Percentage): (r: Progress)
    requires ValidProgress(p)
    ensures ValidProgress(r)
    ensures r.course.courseInfo == p.course.courseInfo
    ensures p.course.categories.Keys <= r.course.categories.Keys
    ensures !Classify(t).CategoryHeader? ==> r.current == p.current && r.course.order == p.course.order
  {
    match Classify(t)
    case CategoryHeader(name) => Progress(ResetCategory(p.course, name), Some(name))
    case AssignmentTable => Progress(RunRows(p.course, p.current, AfterHeader(t.rows), percentage), p.current)
    case Unrecognized => p
  }

  function RunTables(p: Progress, tables: seq<Table>, percentage: Percentage): (r: Progress)
    requires ValidProgress(p)
    ensures ValidProgress(r)
    ensures r.course.courseInfo == p.course.courseInfo
    ensures p.course.categories.Keys <= r.course.categories.Keys
    decreases |tables|
  {
    if tables == [] then p
    else RunTables(RunTable(p, tables[0], percentage), tables[1..], percentage)
  }

  /** `extract_grades_from_iframe`: the course record, or `None` when it has
      neither a category nor a term grade. */
  function ExtractGrades(f: Frame, percentage: Percentage): (r: Option<Course>)
    ensures r.Some? ==> Consistent(r.value) && r.value.courseInfo == CourseInfoOf(f.bodyLines)
    ensures r.Some? <==> var c := RunTables(Start(CourseInfoOf(f.bodyLines)), f.tables, percentage).course;
                         c.categories != map[] || c.termGrade.Some?
  {
    var c := RunTables(Start(CourseInfoOf(f.bodyLines)), f.tables, percentage).course;
    if c.categories != map[] || c.termGrade.Some? then Some(c) else None
  }

  // ---------------------------------------------------------------------
  // All frames (renweb_scraper.py:200-215).

  /** `frame.url and ("grades.cfm" in frame.url.lower() or "/GradeBook/" in frame.url)` */
  predicate IsGradesUrl(url: string) {
    url != "" && (Contains(Lower(url), "grades.cfm") || Contains(url, "/GradeBook/"))
  }

  /** What one frame adds to `all_courses_data`. */
  function FrameYield(f: Frame, percentage: Percentage): seq<Course> {
    if IsGradesUrl(f.url) then
      match ExtractGrades(f, percentage)
      case Some(c) => [c]
      case None => []
    else []
  }

  /** What each frame adds, in frame order. */
  function Yields(frames: seq<Frame>, percentage: Percentage): (ys: seq<seq<Course>>)
    ensures |ys| == |frames|
    ensures forall i :: 0 <= i < |frames| ==> ys[i] == FrameYield(frames[i], percentage)
  {
    seq(|frames|, i requires 0 <= i < |frames| => FrameYield(frames[i], percentage))
  }

  /** The parts, one after another. */
  function Concat<T>(parts: seq<seq<T>>): seq<T> {
    if parts == [] then [] else Concat(parts[..|parts| - 1]) + parts[|parts| - 1]
  }

  /** `all_courses_data` after the loop has seen `frames`. */
  function Collected(frames: seq<Frame>, percentage: Percentage): seq<Course> {
    Concat(Yields(frames, percentage))
  }

  /** `scrape_grades`: the collected records, or `None` when there are none. */
  function ScrapeResult(frames: seq<Frame>, percentage: Percentage): (r: Option<seq<Course>>)
    ensures r.Some? ==> r.value != [] && r.value == Collected(frames, percentage)
    ensures r.None? <==> Collected(frames, percentage) == []
  {
    var cs := Collected(frames, percentage);
    if cs == [] then None else Some(cs)
  }
}
