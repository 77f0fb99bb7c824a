/** The two mutable records of the application, Course and Review, with their setters
    and their toString renderings. */
module Entities {
  import opened JavaText

  /** A java.sql.Timestamp: milliseconds since the epoch. How it prints is left to the
      caller of a rendering function, which passes its own `show`. */
  datatype Timestamp = Timestamp(millis: int)

  /** How Java's string concatenation renders a possibly-null String. */
  function ShowNullable(s: Option<string>): string
  {
    match s
    case None => "null"
    case Some(t) => t
  }

  /** How Java's string concatenation renders a possibly-null Timestamp. */
  function ShowTime(t: Option<Timestamp>, show: Timestamp -> string): string
  {
    match t
    case None => "null"
    case Some(v) => show(v)
  }

  // ---------------------------------------------------------------- Course

  /** Course.toString: subject, a space, the number, ": ", the title, and, when an
      average rating is present, " - Avg Rating: " and that average as printed. */
  function CourseLabel(subject: string, courseNumber: int, title: string, average: Option<string>): string
  {
    subject + " " + IntToDecimal(courseNumber) + ": " + title
      + (match average case None => "" case Some(a) => " - Avg Rating: " + a)
  }

  /** A course label reads back: the text before its first space is the subject, and
      the text from there up to the first ':' parses back to the course number. */
  lemma {:induction false} LabelReadsBack(subject: string, courseNumber: int, title: string, average: Option<string>)
    requires ' ' !in subject
    requires MinInt <= courseNumber <= MaxInt
    ensures ' ' in CourseLabel(subject, courseNumber, title, average)
    ensures Before(CourseLabel(subject, courseNumber, title, average), ' ') == subject
    ensures ParseInt(Before(After(CourseLabel(subject, courseNumber, title, average), ' '), ':')) == Some(courseNumber)
  {
    var number := IntToDecimal(courseNumber);
    var tail := " " + title + (match average case None => "" case Some(a) => " - Avg Rating: " + a);
    var rest := number + [':'] + tail;
    var shown := CourseLabel(subject, courseNumber, title, average);
    assert shown == subject + [' '] + rest;
    assert shown[|subject|] == ' ';
    SplitAtFirst(subject, ' ', rest);
    assert ':' !in number by {
      forall k | 0 <= k < |number| ensures number[k] != ':' {
        if courseNumber < 0 && k > 0 {
          assert number[1..][k - 1] == number[k];
        }
      }
    }
    SplitAtFirst(number, ':', tail);
    ParseIntOfDecimal(courseNumber);
  }

  datatype CourseFields = CourseFields(courseID: int, subject: string, courseNumber: int,
                                       title: string, averageRating: Option<real>)

  class Course {
    var courseID: int
    var subject: string
    var courseNumber: int
    var title: string
    var averageRating: Option<real>

    /** The record's state, all fields at once. */
    function Fields(): CourseFields
      reads this
    {
      CourseFields(courseID, subject, courseNumber, title, averageRating)
    }

    /** The four-argument constructor; no reviews yet, so no average. */
    constructor (id: int, subject: string, courseNumber: int, title: string)
      ensures Fields() == CourseFields(id, subject, courseNumber, title, None)
    {
      this.courseID := id;
      this.subject := subject;
      this.courseNumber := courseNumber;
      this.title := title;
      this.averageRating := None;
    }

    method SetCourseID(courseID: int)
      modifies this
      ensures Fields() == old(Fields()).(courseID := courseID)
    {
      this.courseID := courseID;
    }

    method SetSubject(subject: string)
      modifies this
      ensures Fields() == old(Fields()).(subject := subject)
    {
      this.subject := subject;
    }

    method SetCourseNumber(courseNumber: int)
      modifies this
      ensures Fields() == old(Fields()).(courseNumber := courseNumber)
    {
      this.courseNumber := courseNumber;
    }

    method SetTitle(title: string)
      modifies this
      ensures Fields() == old(Fields()).(title := title)
    {
      this.title := title;
    }

    method SetAverageRating(averageRating: Option<real>)
      modifies this
      ensures Fields() == old(Fields()).(averageRating := averageRating)
    {
      this.averageRating := averageRating;
    }

    /** toString; `formatAverage` stands for String.format("%.2f") on the average. */
    function ToString(formatAverage: real -> string): (r: string)
      reads this
      ensures averageRating.None? ==>
                r == subject + " " + IntToDecimal(courseNumber) + ": " + title
      ensures averageRating.Some? ==>
                r == subject + " " + IntToDecimal(courseNumber) + ": " + title
                     + " - Avg Rating: " + formatAverage(averageRating.value)
      ensures ' ' !in subject && MinInt <= courseNumber <= MaxInt ==>
                ' ' in r && Before(r, ' ') == subject && ParseInt(Before(After(r, ' '), ':')) == Some(courseNumber)
    {
      var average := match averageRating case None => None case Some(a) => Some(formatAverage(a));
      if ' ' !in subject && MinInt <= courseNumber <= MaxInt then
        LabelReadsBack(subject, courseNumber, title, average);
        CourseLabel(subject, courseNumber, title, average)
      else
        CourseLabel(subject, courseNumber, title, average)
    }
  }

  // ---------------------------------------------------------------- Review

  /** Review.toString: four parts joined by '\n'. */
  function ReviewText(rating: int, posted: string, comment: string, updated: string): string
  {
    "Rating: " + IntToDecimal(rating) + "/5" + "\n" +
    "Date posted: " + posted + "\n" +
    comment + "\n" +
    "Last Updated: " + updated
  }

  /** When none of the parts holds a line break, the text splits back into exactly the
      four lines it was built from, in order. */
  lemma {:induction false} ReviewTextLines(rating: int, posted: string, comment: string, updated: string)
    requires '\n' !in posted && '\n' !in comment && '\n' !in updated
    ensures Lines(ReviewText(rating, posted, comment, updated))
              == ["Rating: " + IntToDecimal(rating) + "/5", "Date posted: " + posted, comment, "Last Updated: " + updated]
  {
    RatingLineUnbroken(rating);
    PrefixedUnbroken("Date posted: ", posted);
    PrefixedUnbroken("Last Updated: ", updated);
    ReviewTextShape(rating, posted, comment, updated);
    FourLines("Rating: " + IntToDecimal(rating) + "/5", "Date posted: " + posted, comment, "Last Updated: " + updated);
  }

  lemma {:induction false} FourLines(a: string, b: string, c: string, d: string)
    requires '\n' !in a && '\n' !in b && '\n' !in c && '\n' !in d
    ensures Lines(a + "\n" + (b + "\n" + (c + "\n" + d))) == [a, b, c, d]
  {
    ThreeLines(b, c, d);
    LinesPrepend(a, b + "\n" + (c + "\n" + d), [b, c, d]);
    ConsFour(a, b, c, d);
  }

  lemma ConsFour(a: string, b: string, c: string, d: string)
    ensures [a] + [b, c, d] == [a, b, c, d]
  {
  }

  /** A line without '\n' put in front of text adds one line in front of its lines. */
  lemma LinesPrepend(a: string, rest: string, lines: seq<string>)
    requires '\n' !in a && Lines(rest) == lines
    ensures Lines(a + "\n" + rest) == [a] + lines
  {
    LinesCons(a, rest);
  }

  lemma {:induction false} ThreeLines(b: string, c: string, d: string)
    requires '\n' !in b && '\n' !in c && '\n' !in d
    ensures Lines(b + "\n" + (c + "\n" + d)) == [b, c, d]
  {
    TwoLines(c, d);
    LinesCons(b, c + "\n" + d);
  }

  lemma {:induction false} TwoLines(c: string, d: string)
    requires '\n' !in c && '\n' !in d
    ensures Lines(c + "\n" + d) == [c, d]
  {
    LinesCons(c, d);
    LinesSingle(d);
  }

  lemma ReviewTextShape(rating: int, posted: string, comment: string, updated: string)
    ensures ReviewText(rating, posted, comment, updated)
              == ("Rating: " + IntToDecimal(rating) + "/5") + "\n" + (("Date posted: " + posted) + "\n" + (comment + "\n" + ("Last Updated: " + updated)))
  {
    var r, p, u := "Rating: " + IntToDecimal(rating) + "/5", "Date posted: " + posted, "Last Updated: " + updated;
    assert ReviewText(rating, posted, comment, updated) == r + "\n" + p + "\n" + comment + "\n" + u;
  }

  lemma RatingLineUnbroken(rating: int)
    ensures '\n' !in "Rating: " + IntToDecimal(rating) + "/5"
  {
    var d := IntToDecimal(rating);
    forall k | 0 <= k < |d| ensures d[k] != '\n' {
      if rating < 0 && k > 0 {
        assert d[1..][k - 1] == d[k];
      }
    }
  }

  lemma PrefixedUnbroken(prefix: string, s: string)
    requires '\n' !in prefix && '\n' !in s
    ensures '\n' !in prefix + s
  {
  }

  datatype ReviewFields = ReviewFields(id: int, userID: int, courseID: int, rating: int,
                                       entryTime: Option<Timestamp>, comment: Option<string>,
                                       timestamp: Option<Timestamp>)

  class Review {
    var id: int
    var userID: int
    var courseID: int
    var rating: int
    var entryTime: Option<Timestamp>
    var comment: Option<string>
    /** Set to the clock reading at construction, independently of entryTime. */
    var timestamp: Option<Timestamp>

    function Fields(): ReviewFields
      reads this
    {
      ReviewFields(id, userID, courseID, rating, entryTime, comment, timestamp)
    }

    /** The six-argument constructor, arguments in parameter order; `createdAt` is the
        clock reading taken by the field initialiser of `timestamp`. */
    constructor (id: int, userID: int, courseID: int, rating: int,
                 entryTime: Option<Timestamp>, comment: Option<string>, createdAt: Timestamp)
      ensures Fields() == ReviewFields(id, userID, courseID, rating, entryTime, comment, Some(createdAt))
    {
      this.id := id;
      this.userID := userID;
      this.courseID := courseID;
      this.rating := rating;
      this.entryTime := entryTime;
      this.comment := comment;
      this.timestamp := Some(createdAt);
    }

    /** The no-argument constructor: Java's defaults, zero ints and null references,
        except the initialised `timestamp`. */
    constructor Empty(createdAt: Timestamp)
      ensures Fields() == ReviewFields(0, 0, 0, 0, None, None, Some(createdAt))
    {
      id, userID, courseID, rating := 0, 0, 0, 0;
      entryTime, comment := None, None;
      timestamp := Some(createdAt);
    }

    method SetId(id: int)
      modifies this
      ensures Fields() == old(Fields()).(id := id)
    {
      this.id := id;
    }

    method SetUserID(userID: int)
      modifies this
      ensures Fields() == old(Fields()).(userID := userID)
    {
      this.userID := userID;
    }

    method SetCourseID(courseID: int)
      modifies this
      ensures Fields() == old(Fields()).(courseID := courseID)
    {
      this.courseID := courseID;
    }

    method SetRating(rating: int)
      modifies this
      ensures Fields() == old(Fields()).(rating := rating)
    {
      this.rating := rating;
    }

    method SetEntryTime(entryTime: Option<Timestamp>)
      modifies this
      ensures Fields() == old(Fields()).(entryTime := entryTime)
      ensures timestamp == old(timestamp)
    {
      this.entryTime := entryTime;
    }

    method SetComment(comment: Option<string>)
      modifies this
      ensures Fields() == old(Fields()).(comment := comment)
    {
      this.comment := comment;
    }

    method SetTimestamp(timestamp: Option<Timestamp>)
      modifies this
      ensures Fields() == old(Fields()).(timestamp := timestamp)
      ensures entryTime == old(entryTime)
    {
      this.timestamp := timestamp;
    }

    /** toString; `show` stands for Timestamp.toString. */
    function ToString(show: Timestamp -> string): (r: string)
      reads this
      ensures var posted, text, updated := ShowTime(entryTime, show), ShowNullable(comment), ShowTime(timestamp, show);
              '\n' !in posted && '\n' !in text && '\n' !in updated ==>
                Lines(r) == ["Rating: " + IntToDecimal(rating) + "/5", "Date posted: " + posted,
                             text, "Last Updated: " + updated]
    {
      var posted, text, updated := ShowTime(entryTime, show), ShowNullable(comment), ShowTime(timestamp, show);
      if '\n' !in posted && '\n' !in text && '\n' !in updated then
        ReviewTextLines(rating, posted, text, updated);
        ReviewText(rating, posted, text, updated)
      else
        ReviewText(rating, posted, text, updated)
    }
  }
}
