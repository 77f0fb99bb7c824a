/** The review screen of one course: parsing the rating, submitting a review (a new one,
    or an edit of the user's earlier one) and deleting it, each followed by a commit. */
module CourseReview {
  import opened JavaText
  import opened Entities
  import opened Database

  const RatingRangeMessage := "Rating must be between 1 and 5."
  const SubmittedMessage := "Review submitted successfully."
  const DeletedMessage := "Review deleted successfully."
  const DeleteErrorPrefix := "Error deleting review: "

  // ---------------------------------------------------------------- the rating

  /** parseRating: Integer.parseInt on the field's text, then the range check. */
  function ParseRating(text: string): (r: Result<int>)
    ensures r.Ok? <==> ParseInt(text).Some? && 1 <= ParseInt(text).value <= 5
    ensures r.Ok? ==> r.value == ParseInt(text).value
    ensures ParseInt(text).None? ==> r == Err(NumberFormat(NumberFormatMessage(text)))
    ensures ParseInt(text).Some? && !(1 <= ParseInt(text).value <= 5) ==> r == Err(IllegalArgument(RatingRangeMessage))
  {
    match ParseInt(text)
    case None => Err(NumberFormat(NumberFormatMessage(text)))
    case Some(rating) =>
      if rating < 1 || rating > 5 then Err(IllegalArgument(RatingRangeMessage)) else Ok(rating)
  }

  /** A rating typed as an int reads back as itself exactly when it is from 1 to 5;
      any other int is refused with the range message. */
  lemma RatingReadsBack(k: int)
    requires MinInt <= k <= MaxInt
    ensures 1 <= k <= 5 ==> ParseRating(IntToDecimal(k)) == Ok(k)
    ensures !(1 <= k <= 5) ==> ParseRating(IntToDecimal(k)) == Err(IllegalArgument(RatingRangeMessage))
  {
    ParseIntOfDecimal(k);
  }

  // ---------------------------------------------------------------- what a submit stores

  /** What a submit should store: an edit of the pair's review when the user already
      reviewed the course, a new review otherwise. */
  function AfterSubmit(s: Store, userID: int, courseID: int, rating: int,
                       entryTime: Option<Timestamp>, comment: Option<string>): (r: Store)
    ensures r.users == s.users && r.courses == s.courses && r.tables == s.tables
    ensures HasPair(s.reviews, userID, courseID) ==> |r.reviews| == |s.reviews|
    ensures !HasPair(s.reviews, userID, courseID) ==> |r.reviews| == |s.reviews| + 1
  {
    if HasPair(s.reviews, userID, courseID)
    then s.(reviews := Edited(s.reviews, userID, courseID, rating, entryTime, comment))
    else InsertReview(s, userID, courseID, rating, entryTime, comment)
  }

  /** The first review of a pair after editing that pair is its earlier first review
      with the new rating, entry time and comment. */
  lemma {:induction false} FindReviewEdited(reviews: seq<ReviewRow>, userID: int, courseID: int,
                                            rating: int, entryTime: Option<Timestamp>, comment: Option<string>)
    requires HasPair(reviews, userID, courseID)
    ensures FindReview(Edited(reviews, userID, courseID, rating, entryTime, comment), userID, courseID)
              == Some(FindReview(reviews, userID, courseID).value.(rating := rating, entryTime := entryTime, comment := comment))
  {
    var r := Edited(reviews, userID, courseID, rating, entryTime, comment);
    assert r[0] == if IsPair(reviews[0], userID, courseID)
                   then reviews[0].(rating := rating, entryTime := entryTime, comment := comment)
                   else reviews[0];
    if !IsPair(reviews[0], userID, courseID) {
      assert r[1..] == Edited(reviews[1..], userID, courseID, rating, entryTime, comment);
      FindReviewEdited(reviews[1..], userID, courseID, rating, entryTime, comment);
    }
  }

  /** Editing one pair leaves the first review of every other pair as it was. */
  lemma {:induction false} FindReviewEditedOther(reviews: seq<ReviewRow>, userID: int, courseID: int,
                                                 rating: int, entryTime: Option<Timestamp>, comment: Option<string>,
                                                 otherUser: int, otherCourse: int)
    requires otherUser != userID || otherCourse != courseID
    ensures FindReview(Edited(reviews, userID, courseID, rating, entryTime, comment), otherUser, otherCourse)
              == FindReview(reviews, otherUser, otherCourse)
  {
    if reviews != [] {
      var r := Edited(reviews, userID, courseID, rating, entryTime, comment);
      assert r[1..] == Edited(reviews[1..], userID, courseID, rating, entryTime, comment);
      assert IsPair(r[0], otherUser, otherCourse) == IsPair(reviews[0], otherUser, otherCourse);
      FindReviewEditedOther(reviews[1..], userID, courseID, rating, entryTime, comment, otherUser, otherCourse);
    }
  }

  /** Looking a pair up after appending a review: earlier reviews come first. */
  lemma {:induction false} FindReviewAppend(reviews: seq<ReviewRow>, row: ReviewRow, userID: int, courseID: int)
    ensures FindReview(reviews + [row], userID, courseID) ==
              if HasPair(reviews, userID, courseID) then FindReview(reviews, userID, courseID)
              else if IsPair(row, userID, courseID) then Some(row) else None
  {
    if reviews != [] {
      assert (reviews + [row])[1..] == reviews[1..] + [row];
      FindReviewAppend(reviews[1..], row, userID, courseID);
    } else {
      assert ([] + [row])[1..] == [];
    }
  }

  /** A submit is an upsert: afterwards the pair has a review carrying the submitted
      rating, entry time and comment, one review per pair still holds, and every other
      pair finds the review it found before. */
  lemma SubmitUpserts(s: Store, userID: int, courseID: int, rating: int,
                      entryTime: Option<Timestamp>, comment: Option<string>,
                      otherUser: int, otherCourse: int)
    requires UniquePairs(s.reviews)
    requires otherUser != userID || otherCourse != courseID
    ensures var r := AfterSubmit(s, userID, courseID, rating, entryTime, comment);
            UniquePairs(r.reviews) && HasPair(r.reviews, userID, courseID) &&
            FindReview(r.reviews, userID, courseID).value.rating == rating &&
            FindReview(r.reviews, userID, courseID).value.entryTime == entryTime &&
            FindReview(r.reviews, userID, courseID).value.comment == comment &&
            FindReview(r.reviews, otherUser, otherCourse) == FindReview(s.reviews, otherUser, otherCourse)
  {
    if HasPair(s.reviews, userID, courseID) {
      EditedKeepsPairs(s.reviews, userID, courseID, rating, entryTime, comment);
      FindReviewEdited(s.reviews, userID, courseID, rating, entryTime, comment);
      FindReviewEditedOther(s.reviews, userID, courseID, rating, entryTime, comment, otherUser, otherCourse);
    } else {
      var row := ReviewRow(s.lastReviewId + 1, userID, courseID, rating, entryTime, comment);
      AppendKeepsPairs(s.reviews, row);
      FindReviewAppend(s.reviews, row, userID, courseID);
      FindReviewAppend(s.reviews, row, otherUser, otherCourse);
    }
  }

  /** Submitting again edits instead of adding: the number of reviews stays what the
      first submit made it. */
  lemma SubmitTwiceAddsOnce(s: Store, userID: int, courseID: int, rating: int, rating': int,
                            entryTime: Option<Timestamp>, entryTime': Option<Timestamp>,
                            comment: Option<string>, comment': Option<string>)
    ensures var once := AfterSubmit(s, userID, courseID, rating, entryTime, comment);
            |AfterSubmit(once, userID, courseID, rating', entryTime', comment').reviews| == |once.reviews|
  {
    var once := AfterSubmit(s, userID, courseID, rating, entryTime, comment);
    if HasPair(s.reviews, userID, courseID) {
      var x := FindReview(s.reviews, userID, courseID).value;
      var k :| 0 <= k < |s.reviews| && s.reviews[k] == x;
      assert IsPair(once.reviews[k], userID, courseID) && once.reviews[k] in once.reviews;
    } else {
      FindReviewAppend(s.reviews, ReviewRow(s.lastReviewId + 1, userID, courseID, rating, entryTime, comment),
                       userID, courseID);
    }
  }

  /** What the submit as written stores. The review is built with the course id where
      the user id goes and the other way round, and the lookup is made with the right
      ids; when it finds a review, the edit is handed a null old review. */
  function AfterSubmitAsWritten(s: Store, userID: int, courseID: int, rating: int,
                                entryTime: Option<Timestamp>, comment: Option<string>): (r: Result<Store>)
    ensures HasPair(s.reviews, userID, courseID) <==> r == Err(NullPointer)
    ensures r.Ok? ==> r.value.reviews == s.reviews + [ReviewRow(s.lastReviewId + 1, courseID, userID, rating, entryTime, comment)]
  {
    if HasPair(s.reviews, userID, courseID) then Err(NullPointer)
    else Ok(InsertReview(s, courseID, userID, rating, entryTime, comment))
  }

  /** User 1 submits twice for course 2 as written: both submits add a review, under
      the pair (2, 1), so the reviews are no longer one per pair, and the user's own
      pair is never found. */
  lemma SwappedSubmitDuplicates(s: Store)
    requires s.reviews == []
    ensures var first := AfterSubmitAsWritten(s, 1, 2, 4, None, Some("good"));
            first.Ok? &&
            var second := AfterSubmitAsWritten(first.value, 1, 2, 5, None, Some("better"));
            second.Ok? && |second.value.reviews| == 2 &&
            !UniquePairs(second.value.reviews) && !HasPair(second.value.reviews, 1, 2)
  {
    var first := AfterSubmitAsWritten(s, 1, 2, 4, None, Some("good"));
    var rows := first.value.reviews;
    assert !HasPair(rows, 1, 2) by {
      assert rows == [ReviewRow(s.lastReviewId + 1, 2, 1, 4, None, Some("good"))];
    }
    var second := AfterSubmitAsWritten(first.value, 1, 2, 5, None, Some("better"));
    var both := second.value.reviews;
    assert IsPair(both[1], both[0].userID, both[0].courseID);
    assert !HasPair(both, 1, 2) by {
      assert both[0].userID == 2 && both[1].userID == 2;
      forall x | x in both ensures !IsPair(x, 1, 2) {
      }
    }
  }

  /** When the user and course ids coincide, the swap does not show, so the second
      submit as written reaches the edit with a null old review. */
  lemma SecondSubmitAsWrittenHitsNullEdit(s: Store)
    requires s.reviews == []
    ensures var first := AfterSubmitAsWritten(s, 7, 7, 4, None, Some("good"));
            first.Ok? && AfterSubmitAsWritten(first.value, 7, 7, 5, None, Some("better")) == Err(NullPointer)
  {
    var first := AfterSubmitAsWritten(s, 7, 7, 4, None, Some("good"));
    assert first.value.reviews[0].userID == 7 && first.value.reviews[0].courseID == 7;
    assert IsPair(first.value.reviews[0], 7, 7);
  }

  // ---------------------------------------------------------------- the store calls of a submit

  /** Why the lookup of a submit fails in driver state `st`, if it does. */
  function LookupRefusal(st: DriverState, failing: map<Call, string>): Option<Failure>
  {
    StoreRefusal(st, failing, Call.GetReviewFromUserForCourse, ReviewsTable)
  }

  /** The write a submit makes once the lookup answered whether the user has a review. */
  function WriteCall(found: bool): Call
  {
    if found then Call.EditReview else Call.AddReview
  }

  /** The exceptions handleSubmitReview catches: SQLException and
      IllegalArgumentException, NumberFormatException included. */
  predicate CaughtOnSubmit(f: Failure): (r: bool)
    ensures !r <==> f.NullPointer? || f.IllegalState?
  {
    f.SqlError? || f.IllegalArgument? || f.NumberFormat?
  }

  /** What handleSubmitReview does with a failure `f`: a caught one shows its message,
      any other escapes and leaves the message as it was. */
  predicate Handled(f: Failure, escaped: Option<Failure>, shown: string, before: string): (r: bool)
    ensures r ==> (escaped.None? <==> CaughtOnSubmit(f))
    ensures r && escaped.Some? ==> escaped.value == f && shown == before
  {
    if CaughtOnSubmit(f) then escaped.None? && shown == f.message
    else escaped == Some(f) && shown == before
  }

  // ---------------------------------------------------------------- the controller

  /** CourseReviewController for one course and one signed-in user. */
  class CourseReviewController {
    const db: DatabaseDriver
    const course: Course
    const user: User
    var message: string

    /** A screen showing `course` to `user` (setCurrentCourseAndUser). */
    constructor (db: DatabaseDriver, course: Course, user: User)
      ensures this.db == db && this.course == course && this.user == user && message == ""
    {
      this.db := db;
      this.course := course;
      this.user := user;
      message := "";
    }

    /** The catch clause of handleSubmitReview: the exception's message is shown, or
        the exception escapes. */
    method SubmitFailed(f: Failure) returns (escaped: Option<Failure>)
      modifies this
      ensures Handled(f, escaped, message, old(message))
    {
      if CaughtOnSubmit(f) {
        message := f.message;
        escaped := None;
      } else {
        escaped := Some(f);
      }
    }

    /** The commit that ends a submit, and the message it leads to. */
    method Finish() returns (escaped: Option<Failure>)
      requires db.Valid() && db.conn == Opened
      modifies this, db
      ensures db.Valid() && db.log == old(db.log) + [Call.Commit] && escaped.None?
      ensures Call.Commit in db.failing ==>
                message == db.failing[Call.Commit] && db.State() == old(db.State())
      ensures Call.Commit !in db.failing ==>
                message == SubmittedMessage && db.State() == old(db.State()).(committed := old(db.pending))
    {
      var committed := db.Commit();
      assert (db as object) != this;
      if committed.Err? {
        escaped := SubmitFailed(committed.failure);
        return;
      }
      message := SubmittedMessage;
      escaped := None;
    }

    /** handleSubmitReview with the review built as (0, userID, courseID, ...) and the
        found review handed to the edit. An invalid rating touches nothing. Otherwise the
        lookup, then an edit of the user's review of this course when there is one and an
        add otherwise, then a commit, made only after a successful write; the first call
        that fails ends the submit. `now` is the clock reading. */
    method HandleSubmitReview(ratingText: string, comment: string, now: Timestamp) returns (escaped: Option<Failure>)
      requires db.Valid()
      modifies this, db
      ensures db.Valid() && db.conn == old(db.conn)
      ensures ParseRating(ratingText).Err? ==>
                Handled(ParseRating(ratingText).failure, escaped, message, old(message)) &&
                db.log == old(db.log) && db.State() == old(db.State())
      ensures ParseRating(ratingText).Ok? ==>
                var found := HasPair(old(db.pending.reviews), user.id, old(course.courseID));
                var write := WriteCall(found);
                var stored := AfterSubmit(old(db.pending), user.id, old(course.courseID), ParseRating(ratingText).value,
                                          Some(now), Some(comment));
                match LookupRefusal(old(db.State()), db.failing)
                case Some(f) =>
                  db.log == old(db.log) + [Call.GetReviewFromUserForCourse] && db.State() == old(db.State()) &&
                  Handled(f, escaped, message, old(message))
                case None =>
                  match StoreRefusal(old(db.State()), db.failing, write, ReviewsTable)
                  case Some(f) =>
                    db.log == old(db.log) + [Call.GetReviewFromUserForCourse, write] && db.State() == old(db.State()) &&
                    Handled(f, escaped, message, old(message))
                  case None =>
                    db.log == old(db.log) + [Call.GetReviewFromUserForCourse, write, Call.Commit] &&
                    db.pending == stored && escaped.None? &&
                    (Call.Commit in db.failing ==> message == db.failing[Call.Commit] && db.committed == old(db.committed)) &&
                    (Call.Commit !in db.failing ==> message == SubmittedMessage && db.committed == stored)
    {
      var parsed := ParseRating(ratingText);
      if parsed.Err? {
        escaped := SubmitFailed(parsed.failure);
        return;
      }
      var review := new Review(0, user.id, course.courseID, parsed.value, Some(now), Some(comment), now);
      escaped := Store(review, false);
    }

    /** handleSubmitReview as written: the review is built as (0, courseID, userID, ...),
        so its user and course ids are swapped, and when the lookup finds the user's
        review the edit is handed a null old review, whose ids it cannot read. */
    method HandleSubmitReviewAsWritten(ratingText: string, comment: string, now: Timestamp) returns (escaped: Option<Failure>)
      requires db.Valid()
      modifies this, db
      ensures db.Valid() && db.conn == old(db.conn)
      ensures ParseRating(ratingText).Err? ==>
                Handled(ParseRating(ratingText).failure, escaped, message, old(message)) &&
                db.log == old(db.log) && db.State() == old(db.State())
      ensures ParseRating(ratingText).Ok? ==>
                var stored := AfterSubmitAsWritten(old(db.pending), user.id, old(course.courseID),
                                                   ParseRating(ratingText).value, Some(now), Some(comment));
                var write := WriteCall(stored.Err?);
                match LookupRefusal(old(db.State()), db.failing)
                case Some(f) =>
                  db.log == old(db.log) + [Call.GetReviewFromUserForCourse] && db.State() == old(db.State()) &&
                  Handled(f, escaped, message, old(message))
                case None =>
                  match StoreRefusal(old(db.State()), db.failing, write, ReviewsTable)
                  case Some(f) =>
                    db.log == old(db.log) + [Call.GetReviewFromUserForCourse, write] && db.State() == old(db.State()) &&
                    Handled(f, escaped, message, old(message))
                  case None =>
                    (stored.Err? ==>
                       escaped == Some(stored.failure) && message == old(message) &&
                       db.log == old(db.log) + [Call.GetReviewFromUserForCourse, Call.EditReview] &&
                       db.State() == old(db.State())) &&
                    (stored.Ok? ==>
                       db.log == old(db.log) + [Call.GetReviewFromUserForCourse, Call.AddReview, Call.Commit] &&
                       db.pending == stored.value && escaped.None? &&
                       (Call.Commit in db.failing ==> message == db.failing[Call.Commit] && db.committed == old(db.committed)) &&
                       (Call.Commit !in db.failing ==> message == SubmittedMessage && db.committed == stored.value))
    {
      var parsed := ParseRating(ratingText);
      if parsed.Err? {
        escaped := SubmitFailed(parsed.failure);
        return;
      }
      var review := new Review(0, course.courseID, user.id, parsed.value, Some(now), Some(comment), now);
      escaped := Store(review, true);
    }

    /** The store calls of a submit once the review is built: the lookup, the write and
        the commit. `asWritten` hands the edit a null old review. */
    method Store(review: Review, asWritten: bool) returns (escaped: Option<Failure>)
      requires db.Valid()
      modifies this, db
      ensures db.Valid() && db.conn == old(db.conn)
      ensures var found := HasPair(old(db.pending.reviews), user.id, old(course.courseID));
              var write := WriteCall(found);
              var written :=
                if found then
                  old(db.pending).(reviews := Edited(old(db.pending.reviews), user.id, old(course.courseID),
                                                     old(review.rating), old(review.entryTime), old(review.comment)))
                else InsertReview(old(db.pending), old(review.userID), old(review.courseID),
                                  old(review.rating), old(review.entryTime), old(review.comment));
              match LookupRefusal(old(db.State()), db.failing)
              case Some(f) =>
                db.log == old(db.log) + [Call.GetReviewFromUserForCourse] && db.State() == old(db.State()) &&
                Handled(f, escaped, message, old(message))
              case None =>
                match StoreRefusal(old(db.State()), db.failing, write, ReviewsTable)
                case Some(f) =>
                  db.log == old(db.log) + [Call.GetReviewFromUserForCourse, write] && db.State() == old(db.State()) &&
                  Handled(f, escaped, message, old(message))
                case None =>
                  (found && asWritten ==>
                     escaped == Some(NullPointer) && message == old(message) &&
                     db.log == old(db.log) + [Call.GetReviewFromUserForCourse, Call.EditReview] &&
                     db.State() == old(db.State())) &&
                  (!(found && asWritten) ==>
                     db.log == old(db.log) + [Call.GetReviewFromUserForCourse, write, Call.Commit] &&
                     db.pending == written && escaped.None? &&
                     (Call.Commit in db.failing ==> message == db.failing[Call.Commit] && db.committed == old(db.committed)) &&
                     (Call.Commit !in db.failing ==> message == SubmittedMessage && db.committed == written))
    {
      var existing := db.GetReviewFromUserForCourse(user, course);
      assert (db as object) != this;
      if existing.Err? {
        escaped := SubmitFailed(existing.failure);
        return;
      }
      escaped := Write(review, asWritten, existing.value);
    }

    /** The write of a submit, once the lookup answered `existing`, and the commit after
        it. */
    method Write(review: Review, asWritten: bool, existing: Option<ReviewRow>) returns (escaped: Option<Failure>)
      requires db.Valid()
      requires existing.Some? ==> IsPair(existing.value, user.id, course.courseID)
      modifies this, db
      ensures db.Valid() && db.conn == old(db.conn)
      ensures var write := WriteCall(existing.Some?);
              var written :=
                if existing.Some? then
                  old(db.pending).(reviews := Edited(old(db.pending.reviews), user.id, old(course.courseID),
                                                     old(review.rating), old(review.entryTime), old(review.comment)))
                else InsertReview(old(db.pending), old(review.userID), old(review.courseID),
                                  old(review.rating), old(review.entryTime), old(review.comment));
              match StoreRefusal(old(db.State()), db.failing, write, ReviewsTable)
              case Some(f) =>
                db.log == old(db.log) + [write] && db.State() == old(db.State()) &&
                Handled(f, escaped, message, old(message))
              case None =>
                (existing.Some? && asWritten ==>
                   escaped == Some(NullPointer) && message == old(message) &&
                   db.log == old(db.log) + [Call.EditReview] && db.State() == old(db.State())) &&
                (!(existing.Some? && asWritten) ==>
                   db.log == old(db.log) + [write, Call.Commit] && db.pending == written && escaped.None? &&
                   (Call.Commit in db.failing ==> message == db.failing[Call.Commit] && db.committed == old(db.committed)) &&
                   (Call.Commit !in db.failing ==> message == SubmittedMessage && db.committed == written))
    {
      var written: Result<()>;
      if existing.Some? {
        written := db.EditReview(if asWritten then None else existing, review);
      } else {
        written := db.AddReview(review);
      }
      assert (db as object) != this;
      if written.Err? {
        escaped := SubmitFailed(written.failure);
        return;
      }
      escaped := Finish();
    }

    /** handleDeleteReview: remove the user's reviews of this course, then commit; an
        SQLException from either is reported with its message, and the commit happens
        only after a successful removal. */
    method HandleDeleteReview() returns (escaped: Option<Failure>)
      requires db.Valid()
      modifies this, db
      ensures db.Valid() && db.conn == old(db.conn)
      ensures var removed := old(db.pending).(reviews := Removed(old(db.pending.reviews), user.id, old(course.courseID)));
              match old(db.Refusal(Call.RemoveReview, ReviewsTable))
              case Some(f) =>
                db.log == old(db.log) + [Call.RemoveReview] && db.State() == old(db.State()) &&
                (f.SqlError? ==> escaped.None? && message == DeleteErrorPrefix + f.message) &&
                (!f.SqlError? ==> escaped == Some(f) && message == old(message))
              case None =>
                db.log == old(db.log) + [Call.RemoveReview, Call.Commit] && db.pending == removed && escaped.None? &&
                (Call.Commit in db.failing ==>
                   message == DeleteErrorPrefix + db.failing[Call.Commit] && db.committed == old(db.committed)) &&
                (Call.Commit !in db.failing ==> message == DeletedMessage && db.committed == removed)
    {
      var removed := db.RemoveReview(course, user);
      if removed.Err? {
        if removed.failure.SqlError? {
          message := DeleteErrorPrefix + removed.failure.message;
          return None;
        }
        return Some(removed.failure);
      }
      var committed := db.Commit();
      if committed.Err? {
        // The connection is open once the removal went through, so a failed commit is
        // an SQLException.
        message := DeleteErrorPrefix + committed.failure.message;
        return None;
      }
      message := DeletedMessage;
      escaped := None;
    }
  }
}
