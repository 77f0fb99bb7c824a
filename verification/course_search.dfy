/** The course search screen: searching by subject, number and title, and adding a
    course after validating the three input fields. */
module CourseSearch {
  import opened JavaText
  import opened Entities
  import opened Database

  const NoCriteriaMessage := "Please enter at least one search criteria."
  const NoCoursesMessage := "No courses found."
  const SearchFailedMessage := "Unable to search courses."
  const BadNumberMessage := "Invalid course number."
  const InvalidInputMessage := "Invalid input."
  const AddFailedMessage := "Unable to add course."
  const LoadFailedMessage := "Unable to load courses."

  // ---------------------------------------------------------------- adding: validation

  /** The regular expression [A-Z]{2,4}. */
  predicate IsSubjectCode(s: string): (r: bool)
    ensures r ==> InStoredForm(s)
  {
    2 <= |s| <= 4 && forall k :: 0 <= k < |s| ==> 'A' <= s[k] <= 'Z'
  }

  /** Text that trimming and upper-casing leave as it is: no padding character and no
      lower-case letter. */
  predicate InStoredForm(s: string)
  {
    forall k :: 0 <= k < |s| ==> !IsTrimmable(s[k]) && UpperChar(s[k]) == s[k]
  }

  /** A subject code is stored exactly as it was typed. */
  lemma SubjectCodeStoredAsTyped(s: string)
    requires IsSubjectCode(s)
    ensures NormalizeSubject(s) == s
  {
    assert !IsTrimmable(s[0]) && !IsTrimmable(s[|s| - 1]);
    TrimUntouched(s);
    assert forall k :: 0 <= k < |s| ==> !('a' <= s[k] <= 'z');
    UpperCaseKeepsUpper(s);
    calc {
      NormalizeSubject(s);
      ToUpperCase(Trim(s));
      ToUpperCase(s);
    }
  }

  /** The subject as it is validated and stored: trimmed, then upper-cased. */
  function NormalizeSubject(raw: string): (r: string)
    ensures |r| <= |raw|
    ensures r == [] || (!IsTrimmable(r[0]) && !IsTrimmable(r[|r| - 1]))
    ensures forall k :: 0 <= k < |r| ==> !('a' <= r[k] <= 'z')
  {
    ToUpperCase(Trim(raw))
  }

  /** Normalising a normalised subject changes nothing. */
  lemma {:induction false} NormalizeSubjectIdempotent(raw: string)
    ensures NormalizeSubject(NormalizeSubject(raw)) == NormalizeSubject(raw)
  {
    var r := NormalizeSubject(raw);
    TrimUntouched(r);
    UpperCaseKeepsUpper(r);
  }

  /** Upper-casing text without a lower-case letter changes nothing. */
  lemma UpperCaseKeepsUpper(s: string)
    requires forall k :: 0 <= k < |s| ==> !('a' <= s[k] <= 'z')
    ensures ToUpperCase(s) == s
  {
    assert forall k :: 0 <= k < |s| ==> ToUpperCase(s)[k] == s[k];
  }

  /** The check on the normalised subject, trimmed number and trimmed title: a subject
      code, a number of exactly four characters, a title of 1 to 50 characters. */
  predicate ValidCourseInput(subject: string, numberStr: string, title: string): (r: bool)
    ensures r ==> InStoredForm(subject)
  {
    IsSubjectCode(subject) && |numberStr| == 4 && title != [] && |title| <= 50
  }

  predicate IsLetters(s: string)
  {
    forall k :: 0 <= k < |s| ==> 'a' <= s[k] <= 'z' || 'A' <= s[k] <= 'Z'
  }

  /** Padding and letter case do not matter: a subject of two to four letters, in any
      case and with any surrounding whitespace, is accepted and stored upper-cased. */
  lemma {:induction false} PaddedSubjectAccepted(p: string, s: string, q: string)
    requires AllTrimmable(p) && AllTrimmable(q) && IsLetters(s)
    ensures NormalizeSubject(p + s + q) == ToUpperCase(s)
    ensures IsSubjectCode(NormalizeSubject(p + s + q)) <==> 2 <= |s| <= 4
  {
    assert s == [] || (!IsTrimmable(s[0]) && !IsTrimmable(s[|s| - 1]));
    TrimPadded(p, s, q);
    UpperLettersCode(s);
  }

  /** Letters upper-cased form a subject code exactly when there are two to four. */
  lemma UpperLettersCode(s: string)
    requires IsLetters(s)
    ensures IsSubjectCode(ToUpperCase(s)) <==> 2 <= |s| <= 4
  {
    var u := ToUpperCase(s);
    forall k | 0 <= k < |u| ensures 'A' <= u[k] <= 'Z' {
      assert u[k] == UpperChar(s[k]);
    }
  }

  /** " cs " is accepted, and stored as "CS". */
  lemma LowerCaseSubjectAccepted()
    ensures NormalizeSubject(" cs ") == "CS"
    ensures ValidCourseInput(NormalizeSubject(" cs "), "2150", "Software Development")
  {
    assert " cs " == " " + "cs" + " ";
    TrimPadded(" ", "cs", " ");
    assert ToUpperCase("cs") == "CS";
    assert IsSubjectCode("CS");
  }

  function Pow10(n: nat): (r: nat)
    ensures r >= 1
  {
    if n == 0 then 1 else 10 * Pow10(n - 1)
  }

  /** A string of n digits is worth less than 10^n. */
  lemma {:induction false} DecimalValueBound(s: string)
    requires AllDigits(s)
    ensures DecimalValue(s) < Pow10(|s|)
  {
    if s != [] {
      var front := s[..|s| - 1];
      DecimalValueBound(front);
      assert DecimalValue(s) == DecimalValue(front) * 10 + DigitValue(s[|s| - 1]);
      assert DecimalValue(front) * 10 <= (Pow10(|front|) - 1) * 10;
    }
  }

  /** The length check is all there is: a four-character number field that parses holds
      a value from -999 to 9999, negative numbers included. */
  lemma {:induction false} FourCharacterNumberRange(numberStr: string)
    requires |numberStr| == 4
    ensures ParseInt(numberStr).Some? ==> -999 <= ParseInt(numberStr).value <= 9999
  {
    if ParseInt(numberStr).Some? {
      var signed := numberStr[0] == '-' || numberStr[0] == '+';
      var digits := if signed then numberStr[1..] else numberStr;
      DecimalValueBound(digits);
      assert Pow10(3) == 1000 && Pow10(4) == 10000;
    }
  }

  /** "-123" passes validation and becomes course number -123. */
  lemma NegativeNumberAccepted()
    ensures Trim("-123") == "-123" && |Trim("-123")| == 4
    ensures ParseInt("-123") == Some(-123)
  {
    TrimUntouched("-123");
    assert "-123"[1..] == "123";
    assert "12"[..1] == "1";
    assert DecimalValue("1") == 1;
    assert "123"[..2] == "12";
    assert DecimalValue("12") == 12;
    assert DecimalValue("123") == 123;
  }

  /** "12ab" passes validation, but parsing it throws. */
  lemma NonNumericNumberRejectedByParse()
    ensures |"12ab"| == 4 && ParseInt("12ab").None?
  {
    assert !IsDigit("12ab"[2]);
  }

  // ---------------------------------------------------------------- searching

  /** The rows matching a criterion when the criterion is in use, none otherwise. */
  function Part(used: bool, rows: seq<CourseRow>, c: Criterion): seq<CourseRow>
  {
    if used then Matching(rows, c) else []
  }

  /** The subject results, then the number results, then the title results, each for a
      non-empty field; a row matching two criteria comes twice. */
  function Hits(rows: seq<CourseRow>, subject: string, number: Option<int>, title: string): (r: seq<CourseRow>)
    ensures forall row :: row in r ==> row in rows
    ensures |r| <= 3 * |rows|
    ensures subject == [] && number.None? && title == [] ==> r == []
  {
    Part(subject != [], rows, SubjectIs(subject))
      + Part(number.Some?, rows, NumberIs(if number.Some? then number.value else 0))
      + Part(title != [], rows, TitleContains(title))
  }

  /** The search is a union: a row is a hit iff it matches at least one criterion in use. */
  lemma HitsAreUnion(rows: seq<CourseRow>, subject: string, number: Option<int>, title: string, row: CourseRow)
    ensures row in Hits(rows, subject, number, title) <==>
              row in rows &&
              ((subject != [] && Matches(row, SubjectIs(subject))) ||
               (number.Some? && Matches(row, NumberIs(number.value))) ||
               (title != [] && Matches(row, TitleContains(title))))
  {
  }

  datatype SearchOutcome =
    | NoCriteria
    | BadNumber
    | Refused(failure: Failure)
    | Found(hits: seq<CourseRow>)

  /** What a search comes to, in the order of the source: the subject query, parsing the
      number, the number query, the title query, and only then the check that some field
      was filled in. `bySubject`, `byNumber` and `byTitle` are the store's refusals of the
      three queries, if any. */
  function Search(rows: seq<CourseRow>, bySubject: Option<Failure>, byNumber: Option<Failure>,
                  byTitle: Option<Failure>, subject: string, numberStr: string, title: string): (r: SearchOutcome)
    ensures r.NoCriteria? <==> subject == [] && numberStr == [] && title == []
    ensures r.BadNumber? ==> numberStr != [] && ParseInt(numberStr).None?
    ensures r.Found? ==> r.hits == Hits(rows, subject, if numberStr == [] then None else ParseInt(numberStr), title)
    ensures r.Refused? ==> Some(r.failure) == bySubject || Some(r.failure) == byNumber || Some(r.failure) == byTitle
  {
    if subject != [] && bySubject.Some? then Refused(bySubject.value)
    else if numberStr != [] && ParseInt(numberStr).None? then BadNumber
    else if numberStr != [] && byNumber.Some? then Refused(byNumber.value)
    else if title != [] && byTitle.Some? then Refused(byTitle.value)
    else if subject == [] && numberStr == [] && title == [] then NoCriteria
    else Found(Hits(rows, subject, if numberStr == [] then None else ParseInt(numberStr), title))
  }

  /** What a search with these field texts comes to in driver state `st`. */
  function SearchIn(st: DriverState, failing: map<Call, string>,
                    subjectText: string, numberText: string, titleText: string): (r: SearchOutcome)
    ensures r.Found? ==> forall row :: row in r.hits ==> row in st.pending.courses
    ensures r.Refused? ==>
              Some(r.failure) == StoreRefusal(st, failing, Call.GetCoursesBySubject, CoursesTable) ||
              Some(r.failure) == StoreRefusal(st, failing, Call.GetCoursesByNumber, CoursesTable) ||
              Some(r.failure) == StoreRefusal(st, failing, Call.GetCoursesByTitle, CoursesTable)
  {
    Search(st.pending.courses,
           StoreRefusal(st, failing, Call.GetCoursesBySubject, CoursesTable),
           StoreRefusal(st, failing, Call.GetCoursesByNumber, CoursesTable),
           StoreRefusal(st, failing, Call.GetCoursesByTitle, CoursesTable),
           Trim(subjectText), Trim(numberText), Trim(titleText))
  }

  /** With every query served, a search with some field filled in finds exactly the
      union of the matches, or reports a bad number. */
  lemma ServedSearchFinds(rows: seq<CourseRow>, subject: string, numberStr: string, title: string)
    requires subject != [] || numberStr != [] || title != []
    ensures var r := Search(rows, None, None, None, subject, numberStr, title);
            (r.BadNumber? <==> numberStr != [] && ParseInt(numberStr).None?) &&
            (!r.BadNumber? ==> r.Found?)
  {
  }

  /** Fields holding only trimmable characters count as empty: the search has no
      criteria exactly when all three texts are blank. */
  lemma BlankFieldsNoCriteria(st: DriverState, failing: map<Call, string>,
                              subjectText: string, numberText: string, titleText: string)
    ensures SearchIn(st, failing, subjectText, numberText, titleText).NoCriteria? <==>
              AllTrimmable(subjectText) && AllTrimmable(numberText) && AllTrimmable(titleText)
  {
    TrimEmptyIff(subjectText);
    TrimEmptyIff(numberText);
    TrimEmptyIff(titleText);
  }

  /** The fields are trimmed before use, so padding them does not change the search. */
  lemma SearchIgnoresPadding(st: DriverState, failing: map<Call, string>,
                             subjectText: string, numberText: string, titleText: string)
    ensures SearchIn(st, failing, Trim(subjectText), Trim(numberText), Trim(titleText)) ==
            SearchIn(st, failing, subjectText, numberText, titleText)
  {
    TrimIdempotent(subjectText);
    TrimIdempotent(numberText);
    TrimIdempotent(titleText);
  }

  /** The objects of a sequence, as a set (what HashSet's constructor keeps). */
  function Elements(cs: seq<Course>): set<Course>
  {
    set c | c in cs
  }

  /** A set holds as many objects as a sequence of distinct objects it is made of. */
  lemma {:induction false} DistinctCard(cs: seq<Course>)
    requires Distinct(cs)
    ensures |Elements(cs)| == |cs|
  {
    if cs != [] {
      var tail := cs[1..];
      assert Distinct(tail) by {
        forall i, j | 0 <= i < j < |tail| ensures tail[i] != tail[j] {
          assert tail[i] == cs[i + 1] && tail[j] == cs[j + 1];
        }
      }
      DistinctCard(tail);
      assert (set c | c in cs) == {cs[0]} + (set c | c in tail);
      assert cs[0] !in (set c | c in tail) by {
        forall j | 0 <= j < |tail| ensures tail[j] != cs[0] {
          assert tail[j] == cs[j + 1];
        }
      }
    }
  }

  // ---------------------------------------------------------------- the controller

  /** CourseSearchController: the driver, the courses the list view shows and the text
      of the message label. */
  class CourseSearchController {
    const db: DatabaseDriver
    var shown: set<Course>
    var message: string

    /** A screen over `db`, showing nothing yet. */
    constructor (db: DatabaseDriver)
      ensures this.db == db && shown == {} && message == ""
    {
      this.db := db;
      shown := {};
      message := "";
    }

    /** The handler for a failure inside a search: an SQLException is reported, any
        other exception escapes the handler. */
    method SearchFailed(f: Failure) returns (escaped: Option<Failure>)
      modifies this
      ensures shown == old(shown)
      ensures f.SqlError? ==> message == SearchFailedMessage && escaped.None?
      ensures !f.SqlError? ==> message == old(message) && escaped == Some(f)
    {
      if f.SqlError? {
        message := SearchFailedMessage;
        escaped := None;
      } else {
        escaped := Some(f);
      }
    }

    /** One criterion of a search: when it is in use (`used`, its field is not empty),
        its query runs, and the objects found so far are followed by a new object per
        row matching `c`; otherwise nothing is asked of the store. `found` are the rows
        the objects held so far stand for. */
    method Collect(used: bool, c: Criterion, held: seq<Course>, ghost found: seq<CourseRow>)
      returns (r: Result<seq<Course>>)
      requires db.Valid() && Stands(held, found)
      modifies db
      ensures db.Valid() && db.State() == old(db.State())
      ensures db.log == old(db.log) + if used then [QueryCall(c)] else []
      ensures r.Err? <==> used && db.Refusal(QueryCall(c), CoursesTable).Some?
      ensures r.Err? ==> r.failure == db.Refusal(QueryCall(c), CoursesTable).value
      ensures r.Ok? ==> Stands(r.value, found + Part(used, db.pending.courses, c))
      ensures r.Ok? ==> held <= r.value
      ensures r.Ok? ==> forall o :: o in r.value ==> o in held || fresh(o)
    {
      if !used {
        assert found + [] == found;
        return Ok(held);
      }
      var more := db.GetCourses(c);
      if more.Err? {
        return Err(more.failure);
      }
      AppendStands(held, found, more.value, Matching(db.pending.courses, c));
      r := Ok(held + more.value);
    }

    /** The queries of a search, in the order of the source, over trimmed field texts.
        It stops at a refused query or a number that does not parse, with the outcome
        that stopping means; otherwise it returns one new object per hit. */
    method Gather(subject: string, numberStr: string, title: string)
      returns (stop: Option<SearchOutcome>, objs: seq<Course>)
      requires db.Valid()
      modifies db
      ensures db.Valid() && db.State() == old(db.State())
      ensures var o := Search(db.pending.courses, db.Refusal(Call.GetCoursesBySubject, CoursesTable),
                              db.Refusal(Call.GetCoursesByNumber, CoursesTable),
                              db.Refusal(Call.GetCoursesByTitle, CoursesTable), subject, numberStr, title);
              (stop.Some? ==> stop.value == o && (o.BadNumber? || o.Refused?)) &&
              (stop.None? ==> (o.NoCriteria? ==> db.log == old(db.log) && objs == []) &&
                              (o.Found? ==> Stands(objs, o.hits)) && (o.NoCriteria? || o.Found?))
      ensures forall o :: o in objs ==> fresh(o)
    {
      ghost var rows := db.pending.courses;
      var r := Collect(subject != [], SubjectIs(subject), [], []);
      if r.Err? {
        return Some(Refused(r.failure)), [];
      }
      objs := r.value;
      ghost var bySubject := Part(subject != [], rows, SubjectIs(subject));
      var number: Option<int> := None;
      if numberStr != [] {
        number := ParseInt(numberStr);
        if number.None? {
          return Some(BadNumber), [];
        }
      }
      r := Collect(number.Some?, NumberIs(if number.Some? then number.value else 0), objs, bySubject);
      if r.Err? {
        return Some(Refused(r.failure)), [];
      }
      objs := r.value;
      ghost var byNumber := bySubject + Part(number.Some?, rows, NumberIs(if number.Some? then number.value else 0));
      r := Collect(title != [], TitleContains(title), objs, byNumber);
      if r.Err? {
        return Some(Refused(r.failure)), [];
      }
      objs := r.value;
      stop := None;
    }

    /** handleSearch. Queries never change the store. With no field filled in nothing is
        asked of the store; a failure leaves the list as it was; otherwise the list
        becomes one new course object per hit, so a course found by two criteria is
        listed twice. */
    method HandleSearch(subjectText: string, numberText: string, titleText: string)
      returns (escaped: Option<Failure>)
      requires db.Valid()
      modifies this, db
      ensures db.Valid() && db.State() == old(db.State())
      ensures match SearchIn(old(db.State()), db.failing, subjectText, numberText, titleText)
              case NoCriteria =>
                message == NoCriteriaMessage && shown == old(shown) && escaped.None? && db.log == old(db.log)
              case BadNumber =>
                message == BadNumberMessage && shown == old(shown) && escaped.None?
              case Refused(f) =>
                shown == old(shown) &&
                (f.SqlError? ==> message == SearchFailedMessage && escaped.None?) &&
                (!f.SqlError? ==> message == old(message) && escaped == Some(f))
              case Found(hits) =>
                escaped.None? &&
                (hits == [] ==> message == NoCoursesMessage && shown == old(shown)) &&
                (hits != [] ==> message == old(message) && (forall c :: c in shown ==> fresh(c)) &&
                                (exists objs :: shown == Elements(objs) && Stands(objs, hits)))
    {
      var subject, numberStr, title := Trim(subjectText), Trim(numberText), Trim(titleText);
      ghost var o := Search(db.pending.courses, db.Refusal(Call.GetCoursesBySubject, CoursesTable),
                            db.Refusal(Call.GetCoursesByNumber, CoursesTable),
                            db.Refusal(Call.GetCoursesByTitle, CoursesTable), subject, numberStr, title);
      assert o == SearchIn(db.State(), db.failing, subjectText, numberText, titleText);
      var stop, objs := Gather(subject, numberStr, title);
      assert (db as object) != this;
      escaped := Report(stop, subject == [] && numberStr == [] && title == [], objs, o);
    }

    /** The end of handleSearch: the message and the list view after the queries came
        to `o`; `stop` is where the queries stopped, if they did. */
    method Report(stop: Option<SearchOutcome>, noCriteria: bool, objs: seq<Course>, ghost o: SearchOutcome)
      returns (escaped: Option<Failure>)
      requires stop.Some? ==> stop.value == o && (o.BadNumber? || o.Refused?)
      requires stop.None? ==> o.NoCriteria? || o.Found?
      requires stop.None? && o.Found? ==> Stands(objs, o.hits)
      requires o.NoCriteria? <==> noCriteria
      modifies this
      ensures match o
              case NoCriteria =>
                message == NoCriteriaMessage && shown == old(shown) && escaped.None?
              case BadNumber =>
                message == BadNumberMessage && shown == old(shown) && escaped.None?
              case Refused(f) =>
                shown == old(shown) &&
                (f.SqlError? ==> message == SearchFailedMessage && escaped.None?) &&
                (!f.SqlError? ==> message == old(message) && escaped == Some(f))
              case Found(hits) =>
                escaped.None? &&
                (hits == [] ==> message == NoCoursesMessage && shown == old(shown)) &&
                (hits != [] ==> message == old(message) && shown == Elements(objs) && Stands(objs, hits))
    {
      if stop.Some? {
        if stop.value.BadNumber? {
          message := BadNumberMessage;
          return None;
        }
        escaped := SearchFailed(stop.value.failure);
        return;
      }
      if noCriteria {
        message := NoCriteriaMessage;
        return None;
      }
      if objs == [] {
        message := NoCoursesMessage;
        return None;
      }
      List(objs, o.hits);
      escaped := None;
    }

    /** Puts the objects `objs`, standing for `rows`, on the list view as a HashSet. */
    method List(objs: seq<Course>, ghost rows: seq<CourseRow>)
      requires Stands(objs, rows)
      modifies this
      ensures shown == Elements(objs) && message == old(message) && Stands(objs, rows)
    {
      shown := Elements(objs);
    }

    /** loadCourses: the list view becomes one new object per stored course; an
        SQLException shows its message and leaves the list, anything else escapes. */
    method LoadCourses() returns (escaped: Option<Failure>)
      requires db.Valid()
      modifies this, db
      ensures db.Valid() && db.State() == old(db.State()) && db.log == old(db.log) + [Call.GetAllCoursesWithRatings]
      ensures match db.Refusal(Call.GetAllCoursesWithRatings, CoursesTable)
              case None =>
                escaped.None? && message == old(message) && (forall c :: c in shown ==> fresh(c)) &&
                (exists objs :: shown == Elements(objs) && Stands(objs, db.pending.courses))
              case Some(f) =>
                shown == old(shown) &&
                (f.SqlError? ==> message == LoadFailedMessage && escaped.None?) &&
                (!f.SqlError? ==> message == old(message) && escaped == Some(f))
    {
      var courses := db.GetAllCoursesWithRatings();
      assert (db as object) != this;
      if courses.Err? {
        if courses.failure.SqlError? {
          message := LoadFailedMessage;
          return None;
        }
        return Some(courses.failure);
      }
      List(courses.value, db.pending.courses);
      escaped := None;
    }

    /** The part of handleCourseAdd after validation: add the course, commit, then reload
        the list; an SQLException from the add or the commit is reported, one from the
        reload is reported by the reload, anything else escapes. */
    method AddParsed(subject: string, number: int, title: string) returns (escaped: Option<Failure>)
      requires db.Valid()
      modifies this, db
      ensures db.Valid()
      ensures var added := InsertCourse(old(db.pending), subject, number, title);
              match old(db.Refusal(Call.AddCourse, CoursesTable))
              case Some(f) =>
                db.log == old(db.log) + [Call.AddCourse] && db.State() == old(db.State()) && shown == old(shown) &&
                (f.SqlError? ==> message == AddFailedMessage && escaped.None?) &&
                (!f.SqlError? ==> message == old(message) && escaped == Some(f))
              case None =>
                db.pending == added && escaped.None? &&
                if Call.Commit in db.failing then
                  db.log == old(db.log) + [Call.AddCourse, Call.Commit] &&
                  message == AddFailedMessage && shown == old(shown) && db.committed == old(db.committed)
                else
                  db.log == old(db.log) + [Call.AddCourse, Call.Commit, Call.GetAllCoursesWithRatings] &&
                  db.committed == added && escaped.None? &&
                  (Call.GetAllCoursesWithRatings in db.failing ==>
                     message == LoadFailedMessage && shown == old(shown)) &&
                  (Call.GetAllCoursesWithRatings !in db.failing ==>
                     message == old(message) && (forall c :: c in shown ==> fresh(c)) &&
                     (exists objs :: shown == Elements(objs) && Stands(objs, added.courses)))
    {
      var course := new Course(0, subject, number, title);
      var added := db.AddCourse(course);
      if added.Err? {
        if added.failure.SqlError? {
          message := AddFailedMessage;
          return None;
        }
        return Some(added.failure);
      }
      var committed := db.Commit();
      if committed.Err? {
        // The connection is open once the add went through, so a failed commit is an
        // SQLException.
        message := AddFailedMessage;
        return None;
      }
      escaped := LoadCourses();
    }

    /** handleCourseAdd. The subject is trimmed and upper-cased, the number and title
        trimmed; rejected input touches nothing; accepted input that parses is added and
        committed, and after a good commit the list is reloaded. Parsing happens outside
        the try block, so its NumberFormatException escapes. */
    method HandleCourseAdd(subjectText: string, numberText: string, titleText: string)
      returns (escaped: Option<Failure>)
      requires db.Valid()
      modifies this, db
      ensures db.Valid()
      ensures !ValidCourseInput(NormalizeSubject(subjectText), Trim(numberText), Trim(titleText)) ==>
                message == InvalidInputMessage && escaped.None? && shown == old(shown) &&
                db.log == old(db.log) && db.State() == old(db.State())
      ensures ValidCourseInput(NormalizeSubject(subjectText), Trim(numberText), Trim(titleText)) &&
              ParseInt(Trim(numberText)).None? ==>
                escaped == Some(NumberFormat(NumberFormatMessage(Trim(numberText)))) && shown == old(shown) &&
                message == old(message) && db.log == old(db.log) && db.State() == old(db.State())
      ensures ValidCourseInput(NormalizeSubject(subjectText), Trim(numberText), Trim(titleText)) &&
              ParseInt(Trim(numberText)).Some? && old(db.Serves(Call.AddCourse, CoursesTable)) ==>
                var added := InsertCourse(old(db.pending), NormalizeSubject(subjectText),
                                          ParseInt(Trim(numberText)).value, Trim(titleText));
                db.pending == added && escaped.None? &&
                (Call.Commit in db.failing ==>
                   db.log == old(db.log) + [Call.AddCourse, Call.Commit] &&
                   message == AddFailedMessage && shown == old(shown) && db.committed == old(db.committed)) &&
                (Call.Commit !in db.failing ==>
                   db.log == old(db.log) + [Call.AddCourse, Call.Commit, Call.GetAllCoursesWithRatings] &&
                   db.committed == added &&
                   (Call.GetAllCoursesWithRatings in db.failing ==>
                      message == LoadFailedMessage && shown == old(shown)) &&
                   (Call.GetAllCoursesWithRatings !in db.failing ==>
                      message == old(message) && (forall c :: c in shown ==> fresh(c)) &&
                      (exists objs :: shown == Elements(objs) && Stands(objs, added.courses))))
      ensures ValidCourseInput(NormalizeSubject(subjectText), Trim(numberText), Trim(titleText)) &&
              ParseInt(Trim(numberText)).Some? && old(db.Refusal(Call.AddCourse, CoursesTable)).Some? ==>
                var f := old(db.Refusal(Call.AddCourse, CoursesTable)).value;
                db.log == old(db.log) + [Call.AddCourse] && db.State() == old(db.State()) && shown == old(shown) &&
                (f.SqlError? ==> message == AddFailedMessage && escaped.None?) &&
                (!f.SqlError? ==> message == old(message) && escaped == Some(f))
    {
      var subject, numberStr, title := NormalizeSubject(subjectText), Trim(numberText), Trim(titleText);
      if !ValidCourseInput(subject, numberStr, title) {
        message := InvalidInputMessage;
        return None;
      }
      var number := ParseInt(numberStr);
      if number.None? {
        return Some(NumberFormat(NumberFormatMessage(numberStr)));
      }
      escaped := AddParsed(subject, number.value, title);
    }
  }

  /** Distinct objects standing, one by one, for the rows `rows`. */
  ghost predicate Stands(objs: seq<Course>, rows: seq<CourseRow>)
    reads set i | 0 <= i < |objs| :: objs[i]
  {
    |objs| == |rows| && Distinct(objs) && forall i :: 0 <= i < |objs| ==> RowOf(objs[i]) == rows[i]
  }

  /** Objects standing for the hits show each hit once per occurrence: the set of them
      has as many objects as there are hits, every object stands for a hit, and every
      hit is stood for. */
  lemma StandsOnePerHit(objs: seq<Course>, hits: seq<CourseRow>)
    requires Stands(objs, hits)
    ensures |Elements(objs)| == |hits|
    ensures forall c :: c in Elements(objs) ==> RowOf(c) in hits
    ensures forall row :: row in hits ==> exists c :: c in Elements(objs) && RowOf(c) == row
  {
    DistinctCard(objs);
    forall c | c in Elements(objs) ensures RowOf(c) in hits {
      var i :| 0 <= i < |objs| && objs[i] == c;
      assert RowOf(c) == hits[i];
    }
    forall row | row in hits ensures exists c :: c in Elements(objs) && RowOf(c) == row {
      var i :| 0 <= i < |hits| && hits[i] == row;
      assert objs[i] in Elements(objs);
    }
  }

  /** Adding new objects for more rows keeps the objects standing for the rows. */
  lemma AppendStands(held: seq<Course>, found: seq<CourseRow>, more: seq<Course>, moreRows: seq<CourseRow>)
    requires Stands(held, found) && Stands(more, moreRows)
    requires forall i, j :: 0 <= i < |held| && 0 <= j < |more| ==> held[i] != more[j]
    ensures Stands(held + more, found + moreRows)
  {
    var objs, rows := held + more, found + moreRows;
    forall i | 0 <= i < |objs| ensures RowOf(objs[i]) == rows[i] {
      if i < |held| {
        assert objs[i] == held[i];
      } else {
        assert objs[i] == more[i - |held|];
      }
    }
  }

  /** A course found by two criteria is a hit twice, so the objects standing for the
      hits, put into a set compared by identity, are two objects for the one course. */
  lemma OverlapListedTwice(row: CourseRow, title: string, objs: seq<Course>)
    requires row.subject != [] && title != [] && Contains(ToLowerCase(row.title), ToLowerCase(title))
    requires Stands(objs, Hits([row], row.subject, None, title))
    ensures Hits([row], row.subject, None, title) == [row, row]
    ensures |Elements(objs)| == 2 && forall c :: c in Elements(objs) ==> RowOf(c) == row
  {
    assert Hits([row], row.subject, None, title) == [row, row];
    StandsOnePerHit(objs, [row, row]);
  }

  /** The hits with repeated rows dropped, each row kept where it first comes: the list
      that removing the duplicates of overlapping criteria is meant to give. */
  function DistinctRows(hits: seq<CourseRow>): (r: seq<CourseRow>)
    ensures forall row :: row in r <==> row in hits
    ensures forall i, j :: 0 <= i < j < |r| ==> r[i] != r[j]
  {
    if hits == [] then []
    else
      var d := DistinctRows(hits[..|hits| - 1]);
      if hits[|hits| - 1] in d then d else d + [hits[|hits| - 1]]
  }

  /** Hits that are already distinct are kept as they are, in their order. */
  lemma {:induction false} DistinctRowsKeepsDistinct(hits: seq<CourseRow>)
    requires forall i, j :: 0 <= i < j < |hits| ==> hits[i] != hits[j]
    ensures DistinctRows(hits) == hits
  {
    if hits != [] {
      var init := hits[..|hits| - 1];
      DistinctRowsKeepsDistinct(init);
      assert hits[|hits| - 1] !in init;
      assert init + [hits[|hits| - 1]] == hits;
    }
  }

  /** With the duplicates removed by row, a course found by two criteria is listed once. */
  lemma OverlapListedOnce(row: CourseRow, title: string)
    requires row.subject != [] && title != [] && Contains(ToLowerCase(row.title), ToLowerCase(title))
    ensures DistinctRows(Hits([row], row.subject, None, title)) == [row]
  {
    assert Hits([row], row.subject, None, title) == [row, row];
    assert DistinctRows([row]) == [row];
  }
}
