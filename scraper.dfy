/** The scraper as it runs: `extract_grades_from_iframe` walks a frame's
    tables and rows and updates one dictionary in place, and `scrape_grades`
    appends each frame's record to a list. Each method is proved to compute
    what module Grades specifies. */
module Scraper {
  import opened Grades
  import GradeProperties

  /** The `grades_data` dictionary: course information, the categories with
      their iteration order, and the term grade. */
  class GradesData {
    const courseInfo: CourseInfo
    var order: seq<string>
    var categories: map<string, Category>
    var termGrade: Option<TermGrade>

    /** The dictionary as a value. */
    function Value(): Course
      reads this
    {
      Course(courseInfo, order, categories, termGrade)
    }

    /** `{"course_info": course_info, "categories": {}, "term_grade": None}` */
    constructor (info: CourseInfo)
      ensures Value() == Start(info).course
    {
      courseInfo := info;
      order := [];
      categories := map[];
      termGrade := None;
    }

    /** `grades_data["categories"][name] = {"assignments": [], "category_average": None}` */
    method ResetCategory(name: string)
      modifies this
      ensures Value() == Grades.ResetCategory(old(Value()), name)
    {
      if name !in categories {
        order := order + [name];
      }
      categories := categories[name := EmptyCategory];
    }

    /** `grades_data["categories"][name]["category_average"] = average` */
    method SetCategoryAverage(name: string, average: string)
      requires name in categories
      modifies this
      ensures Value() == ApplyRow(old(Value()), SetAverage(name, average))
    {
      categories := categories[name := categories[name].(categoryAverage := Some(average))];
    }

    /** `grades_data["term_grade"] = {"score": ..., "letter": ...}` */
    method SetTermGrade(grade: TermGrade)
      modifies this
      ensures Value() == ApplyRow(old(Value()), SetTerm(grade))
    {
      termGrade := Some(grade);
    }

    /** `grades_data["categories"][name]["assignments"].append(assignment)` */
    method AppendAssignment(name: string, assignment: Assignment)
      requires name in categories
      modifies this
      ensures Value() == ApplyRow(old(Value()), Append(name, assignment))
    {
      var category := categories[name];
      categories := categories[name := category.(assignments := category.assignments + [assignment])];
    }
  }

  /** `for row in rows[1:]` of an assignment table: the row cascade, each
      outcome applied to `data` in place. A percentage that raises ends the
      loop, keeping what earlier rows did. */
  method ProcessRows(data: GradesData, current: Option<string>, body: seq<seq<string>>, percentage: Percentage)
    requires current.Some? ==> current.value in data.categories
    modifies data
    ensures data.Value() == RunRows(old(data.Value()), current, body, percentage)
  {
    ghost var goal := RunRows(data.Value(), current, body, percentage);
    for j := 0 to |body|
      invariant current.Some? ==> current.value in data.categories
      invariant data.order == old(data.order) && data.categories.Keys == old(data.categories.Keys)
      invariant goal == RunRows(data.Value(), current, body[j..], percentage)
    {
      assert body[j..][1..] == body[j + 1..];
      var cells := CellTexts(body[j]);
      ghost var effect := InterpretRow(cells, current, percentage);
      ghost var step := if effect.Raises? then data.Value() else ApplyRow(data.Value(), effect);
      assert goal == if effect.Raises? then step else RunRows(step, current, body[j + 1..], percentage);

      if !AnyText(cells) {
        assert data.Value() == step;
        continue;
      }

      if IsAverageLabel(cells[0]) {
        if Truthy(current) && |cells| > 1 {
          data.SetCategoryAverage(current.value, cells[1]);
        }
        assert data.Value() == step;
        continue;
      }

      if IsTermLabel(cells[0]) {
        if |cells| > 2 {
          data.SetTermGrade(TermGrade(cells[1], if |cells| > 2 then cells[2] else ""));
        }
        assert data.Value() == step;
        continue;
      }

      GradeProperties.AssignmentRowEffect(cells, current, percentage);
      if Truthy(current) && |cells| >= 5 {
        var percent: Option<string> := None;
        if cells[1] != "" && cells[2] != "" {
          percent := percentage(cells[1], cells[2]);
          if percent.None? {
            // The exception leaves this table; the next table is processed.
            assert effect.Raises? && goal == data.Value();
            break;
          }
        }
        var due := if |cells| > 5 then Some(cells[5]) else None;
        var assignment := Assignment(cells[0], cells[1], cells[2], percent, cells[4], due);
        assert effect == Append(current.value, assignment);
        data.AppendAssignment(current.value, assignment);
      } else {
        assert effect == Ignored;
      }
      assert data.Value() == step;
    }
  }

  /** `extract_grades_from_iframe`: the tables in order, the rows of each
      assignment table after its header row; a percentage that raises ends
      that table's rows and the loop goes on with the next table. */
  method ExtractGradesFromFrame(frame: Frame, percentage: Percentage) returns (result: Option<Course>)
    ensures result == ExtractGrades(frame, percentage)
  {
    var info := CourseInfoOf(frame.bodyLines);
    var data := new GradesData(info);
    var current: Option<string> := None;
    ghost var goal := RunTables(Start(info), frame.tables, percentage);

    for i := 0 to |frame.tables|
      invariant ValidProgress(Progress(data.Value(), current))
      invariant goal == RunTables(Progress(data.Value(), current), frame.tables[i..], percentage)
    {
      var table := frame.tables[i];
      assert frame.tables[i..][1..] == frame.tables[i + 1..];
      var tableText := TableText(table.text);

      if HasKeyword(tableText) {
        var name := CategoryName(tableText);
        current := Some(name);
        data.ResetCategory(name);
        continue;
      }

      var headers := Headers(table.firstCell);
      if "assignment" in headers {
        ProcessRows(data, current, AfterHeader(table.rows), percentage);
      }
    }

    if data.categories != map[] || data.termGrade.Some? {
      result := Some(data.Value());
    } else {
      result := None;
    }
  }

  /** `scrape_grades`, from the list of frames on: the frames whose URL is a
      grades URL, each record that is not `None`, in frame order; `None`
      when there is none. */
  method ScrapeGrades(frames: seq<Frame>, percentage: Percentage) returns (result: Option<seq<Course>>)
    ensures result == ScrapeResult(frames, percentage)
  {
    var allCourses: seq<Course> := [];
    for i := 0 to |frames|
      invariant allCourses == Collected(frames[..i], percentage)
    {
      assert frames[..i + 1][..i] == frames[..i];
      GradeProperties.CollectedStep(frames[..i + 1], percentage);
      var frame := frames[i];
      if IsGradesUrl(frame.url) {
        var frameData := ExtractGradesFromFrame(frame, percentage);
        if frameData.Some? {
          allCourses := allCourses + [frameData.value];
        }
      }
    }
    assert frames[..|frames|] == frames;
    if allCourses != [] {
      result := Some(allCourses);
    } else {
      result := None;
    }
  }
}
