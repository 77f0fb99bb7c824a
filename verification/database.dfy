/** The data layer: one connection to a file-backed store that is opened, committed,
    rolled back and closed under guards, the schema it creates, and the repository
    operations the controllers call on it, over an abstract store of rows. */
module Database {
  import opened JavaText
  import opened Entities

  // ---------------------------------------------------------------- rows and stores

  /** A row of the users table. User.java is not part of this model: a user is this value. */
  datatype User = User(id: int, username: string, password: string)

  datatype CourseRow = CourseRow(id: int, subject: string, courseNumber: int, title: string)

  datatype ReviewRow = ReviewRow(id: int, userID: int, courseID: int, rating: int,
                                 entryTime: Option<Timestamp>, comment: Option<string>)

  const UsersTable := "users"
  const CoursesTable := "courses"
  const ReviewsTable := "reviews"

  /** The three tables createTables declares. */
  const Schema: set<string> := {UsersTable, CoursesTable, ReviewsTable}

  /** What one connection sees of the database file: the tables that exist, their rows,
      and the last id handed out per table (SQLite's AUTOINCREMENT sequence). */
  datatype Store = Store(tables: set<string>, users: seq<User>, courses: seq<CourseRow>,
                         reviews: seq<ReviewRow>,
                         lastUserId: int, lastCourseId: int, lastReviewId: int)

  /** The `connection` field: null, open, or closed. */
  datatype ConnState = Absent | Opened | Closed

  /** The exceptions of the core. */
  datatype Failure =
    | IllegalState(message: string)
    | IllegalArgument(message: string)
    | NumberFormat(message: string)
    | SqlError(message: string)
    | NullPointer

  datatype Result<T> = Ok(value: T) | Err(failure: Failure)

  /** The calls a caller makes on the driver, as recorded in its log. */
  datatype Call =
    | Connect | Commit | Rollback | Disconnect | CreateTables
    | UserExists | GetPasswordForUser | GetUserByUsername | AddUser
    | AddCourse | GetCoursesBySubject | GetCoursesByNumber | GetCoursesByTitle | GetAllCoursesWithRatings
    | GetReviewFromUserForCourse | AddReview | EditReview | RemoveReview

  const AlreadyOpened := "The connection is already opened"
  const NotOpened := "The connection is not opened"
  /** Message texts of failures raised inside the store; their exact wording is not part
      of the source. */
  const ConnectionClosed := "database connection closed"
  const NoSuchTable := "no such table: "
  const UsernameTaken := "UNIQUE constraint failed: users.username"

  // ---------------------------------------------------------------- users

  /** The first user with this name. */
  function FindUser(users: seq<User>, username: string): (r: Option<User>)
    ensures r.Some? ==> r.value in users && r.value.username == username
    ensures r.None? <==> forall u :: u in users ==> u.username != username
  {
    if users == [] then None
    else if users[0].username == username then Some(users[0])
    else FindUser(users[1..], username)
  }

  predicate HasUser(users: seq<User>, username: string)
  {
    FindUser(users, username).Some?
  }

  /** The stored password of a user, absent when there is no such user. */
  function PasswordOf(users: seq<User>, username: string): (r: Option<string>)
    ensures r.Some? <==> HasUser(users, username)
    ensures r.Some? ==> r.value == FindUser(users, username).value.password
  {
    match FindUser(users, username)
    case None => None
    case Some(u) => Some(u.password)
  }

  /** The store after inserting a user under the next id. */
  function InsertUser(s: Store, username: string, password: string): (r: Store)
    ensures r.users == s.users + [User(s.lastUserId + 1, username, password)]
    ensures r.lastUserId == s.lastUserId + 1
    ensures r.(users := s.users, lastUserId := s.lastUserId) == s
  {
    s.(users := s.users + [User(s.lastUserId + 1, username, password)], lastUserId := s.lastUserId + 1)
  }

  // ---------------------------------------------------------------- courses

  /** The three ways the controllers look courses up. */
  datatype Criterion = SubjectIs(subject: string) | NumberIs(number: int) | TitleContains(text: string)

  /** Subject and number match exactly; the title matches when it contains the text,
      ignoring ASCII case. */
  predicate Matches(row: CourseRow, c: Criterion)
  {
    match c
    case SubjectIs(s) => row.subject == s
    case NumberIs(n) => row.courseNumber == n
    case TitleContains(t) => Contains(ToLowerCase(row.title), ToLowerCase(t))
  }

  /** The rows that match, in storage order. */
  function Matching(rows: seq<CourseRow>, c: Criterion): (r: seq<CourseRow>)
    ensures |r| <= |rows|
    ensures forall x :: x in r <==> x in rows && Matches(x, c)
  {
    if rows == [] then []
    else (if Matches(rows[0], c) then [rows[0]] else []) + Matching(rows[1..], c)
  }

  function InsertCourse(s: Store, subject: string, courseNumber: int, title: string): (r: Store)
    ensures r.courses == s.courses + [CourseRow(s.lastCourseId + 1, subject, courseNumber, title)]
    ensures r.lastCourseId == s.lastCourseId + 1
    ensures r.(courses := s.courses, lastCourseId := s.lastCourseId) == s
  {
    s.(courses := s.courses + [CourseRow(s.lastCourseId + 1, subject, courseNumber, title)],
       lastCourseId := s.lastCourseId + 1)
  }

  /** The row a Course object describes. */
  function RowOf(c: Course): CourseRow
    reads c
  {
    CourseRow(c.courseID, c.subject, c.courseNumber, c.title)
  }

  predicate Distinct(cs: seq<Course>)
  {
    forall i, j :: 0 <= i < j < |cs| ==> cs[i] != cs[j]
  }

  /** Builds one new Course object per row, as a query does for each result row. */
  method Materialize(rows: seq<CourseRow>) returns (courses: seq<Course>)
    ensures |courses| == |rows| && Distinct(courses)
    ensures forall i :: 0 <= i < |rows| ==>
              fresh(courses[i]) && RowOf(courses[i]) == rows[i] && courses[i].averageRating.None?
  {
    courses := [];
    var i := 0;
    while i < |rows|
      invariant 0 <= i <= |rows| && |courses| == i && Distinct(courses)
      invariant forall k :: 0 <= k < i ==>
                  fresh(courses[k]) && RowOf(courses[k]) == rows[k] && courses[k].averageRating.None?
    {
      var c := new Course(rows[i].id, rows[i].subject, rows[i].courseNumber, rows[i].title);
      courses := courses + [c];
      i := i + 1;
    }
  }

  // ---------------------------------------------------------------- reviews

  /** A review belongs to this (user, course) pair. */
  predicate IsPair(r: ReviewRow, userID: int, courseID: int)
  {
    r.userID == userID && r.courseID == courseID
  }

  /** The first review of the pair. */
  function FindReview(reviews: seq<ReviewRow>, userID: int, courseID: int): (r: Option<ReviewRow>)
    ensures r.Some? ==> r.value in reviews && IsPair(r.value, userID, courseID)
    ensures r.None? <==> forall x :: x in reviews ==> !IsPair(x, userID, courseID)
  {
    if reviews == [] then None
    else if IsPair(reviews[0], userID, courseID) then Some(reviews[0])
    else FindReview(reviews[1..], userID, courseID)
  }

  predicate HasPair(reviews: seq<ReviewRow>, userID: int, courseID: int)
  {
    FindReview(reviews, userID, courseID).Some?
  }

  /** At most one review per (user, course) pair. */
  predicate UniquePairs(reviews: seq<ReviewRow>)
  {
    forall i, j :: 0 <= i < j < |reviews| ==> !IsPair(reviews[j], reviews[i].userID, reviews[i].courseID)
  }

  /** Every review of the pair gets the new rating, entry time and comment; the rest stay. */
  function Edited(reviews: seq<ReviewRow>, userID: int, courseID: int,
                  rating: int, entryTime: Option<Timestamp>, comment: Option<string>): (r: seq<ReviewRow>)
    ensures |r| == |reviews|
    ensures forall k :: 0 <= k < |r| ==>
              r[k] == if IsPair(reviews[k], userID, courseID)
                      then reviews[k].(rating := rating, entryTime := entryTime, comment := comment)
                      else reviews[k]
  {
    if reviews == [] then []
    else
      var head := if IsPair(reviews[0], userID, courseID)
                  then reviews[0].(rating := rating, entryTime := entryTime, comment := comment)
                  else reviews[0];
      [head] + Edited(reviews[1..], userID, courseID, rating, entryTime, comment)
  }

  /** The reviews that do not belong to the pair, in storage order. */
  function Removed(reviews: seq<ReviewRow>, userID: int, courseID: int): (r: seq<ReviewRow>)
    ensures |r| <= |reviews|
    ensures forall x :: x in r <==> x in reviews && !IsPair(x, userID, courseID)
  {
    if reviews == [] then []
    else (if IsPair(reviews[0], userID, courseID) then [] else [reviews[0]])
         + Removed(reviews[1..], userID, courseID)
  }

  function InsertReview(s: Store, userID: int, courseID: int, rating: int,
                        entryTime: Option<Timestamp>, comment: Option<string>): (r: Store)
    ensures r.reviews == s.reviews + [ReviewRow(s.lastReviewId + 1, userID, courseID, rating, entryTime, comment)]
    ensures r.lastReviewId == s.lastReviewId + 1
    ensures r.(reviews := s.reviews, lastReviewId := s.lastReviewId) == s
  {
    s.(reviews := s.reviews + [ReviewRow(s.lastReviewId + 1, userID, courseID, rating, entryTime, comment)],
       lastReviewId := s.lastReviewId + 1)
  }

  /** Editing keeps every review's (user, course) pair where it was. */
  lemma EditedSamePairs(reviews: seq<ReviewRow>, userID: int, courseID: int,
                        rating: int, entryTime: Option<Timestamp>, comment: Option<string>)
    ensures var r := Edited(reviews, userID, courseID, rating, entryTime, comment);
            forall k :: 0 <= k < |r| ==> r[k].userID == reviews[k].userID && r[k].courseID == reviews[k].courseID
  {
  }

  /** Editing changes no pair, so it keeps pairs unique and keeps the pair present. */
  lemma EditedKeepsPairs(reviews: seq<ReviewRow>, userID: int, courseID: int,
                         rating: int, entryTime: Option<Timestamp>, comment: Option<string>)
    requires UniquePairs(reviews)
    ensures UniquePairs(Edited(reviews, userID, courseID, rating, entryTime, comment))
    ensures HasPair(Edited(reviews, userID, courseID, rating, entryTime, comment), userID, courseID)
            == HasPair(reviews, userID, courseID)
  {
    var r := Edited(reviews, userID, courseID, rating, entryTime, comment);
    EditedSamePairs(reviews, userID, courseID, rating, entryTime, comment);
    assert UniquePairs(r) by {
      forall i, j | 0 <= i < j < |r| ensures !IsPair(r[j], r[i].userID, r[i].courseID) {
        assert !IsPair(reviews[j], reviews[i].userID, reviews[i].courseID);
      }
    }
    if HasPair(reviews, userID, courseID) {
      var x := FindReview(reviews, userID, courseID).value;
      var k :| 0 <= k < |reviews| && reviews[k] == x;
      assert r[k] in r && IsPair(r[k], userID, courseID);
    }
  }

  /** Removing keeps pairs unique and leaves none for the removed pair. */
  lemma {:induction false} RemovedKeepsPairs(reviews: seq<ReviewRow>, userID: int, courseID: int)
    requires UniquePairs(reviews)
    ensures UniquePairs(Removed(reviews, userID, courseID))
    ensures !HasPair(Removed(reviews, userID, courseID), userID, courseID)
  {
    if reviews != [] {
      var tail := reviews[1..];
      assert UniquePairs(tail) by {
        forall i, j | 0 <= i < j < |tail|
          ensures !IsPair(tail[j], tail[i].userID, tail[i].courseID)
        {
          assert tail[i] == reviews[i + 1] && tail[j] == reviews[j + 1];
        }
      }
      RemovedKeepsPairs(tail, userID, courseID);
      var rest := Removed(tail, userID, courseID);
      if !IsPair(reviews[0], userID, courseID) {
        var r := [reviews[0]] + rest;
        forall i, j | 0 <= i < j < |r| ensures !IsPair(r[j], r[i].userID, r[i].courseID) {
          if i == 0 {
            assert r[j] in tail;
            var m :| 0 <= m < |tail| && tail[m] == r[j];
            assert reviews[m + 1] == r[j];
          } else {
            assert r[i] == rest[i - 1] && r[j] == rest[j - 1];
          }
        }
      }
    }
  }

  /** Adding a review for a pair that has none keeps pairs unique. */
  lemma AppendKeepsPairs(reviews: seq<ReviewRow>, row: ReviewRow)
    requires UniquePairs(reviews)
    requires !HasPair(reviews, row.userID, row.courseID)
    ensures UniquePairs(reviews + [row])
    ensures HasPair(reviews + [row], row.userID, row.courseID)
  {
    var r := reviews + [row];
    forall i, j | 0 <= i < j < |r| ensures !IsPair(r[j], r[i].userID, r[i].courseID) {
      if j == |reviews| {
        assert reviews[i] in reviews;
      }
    }
    assert row in r;
  }

  // ---------------------------------------------------------------- the driver

  /** The driver's fields at one moment. */
  datatype DriverState = DriverState(conn: ConnState, autoCommit: bool, foreignKeys: bool,
                                     committed: Store, pending: Store)

  /** Why a repository call touching `table` fails in driver state `st`, if it does:
      no connection object, a closed connection, a missing table, or a refusal by the
      store. */
  function StoreRefusal(st: DriverState, failing: map<Call, string>, call: Call, table: string): (r: Option<Failure>)
    ensures r.None? <==> st.conn == Opened && table in st.pending.tables && call !in failing
  {
    match st.conn
    case Absent => Some(NullPointer)
    case Closed => Some(SqlError(ConnectionClosed))
    case Opened =>
      if table !in st.pending.tables then Some(SqlError(NoSuchTable + table))
      else if call in failing then Some(SqlError(failing[call]))
      else None
  }

  function Answer<T>(refusal: Option<Failure>, value: T): Result<T>
  {
    match refusal
    case Some(f) => Err(f)
    case None => Ok(value)
  }

  /** DatabaseDriver. The database file is modelled by two stores: `committed`, what the
      last commit (or the file, before any) holds and what a rollback returns to, and
      `pending`, what the open connection sees. `failing` stands for the environment:
      the calls the underlying store refuses, each with the message of its SQLException. */
  class DatabaseDriver {
    const sqliteFilename: string
    const failing: map<Call, string>
    var conn: ConnState
    var autoCommit: bool
    var foreignKeys: bool
    var committed: Store
    var pending: Store
    /** Every call made on this driver, oldest first. */
    ghost var log: seq<Call>

    /** Without an open connection there is no uncommitted work. */
    ghost predicate Valid()
      reads this
    {
      conn != Opened ==> pending == committed
    }

    function State(): DriverState
      reads this
    {
      DriverState(conn, autoCommit, foreignKeys, committed, pending)
    }

    /** Why a repository call touching `table` fails now, if it does. */
    function Refusal(call: Call, table: string): (r: Option<Failure>)
      reads this
    {
      StoreRefusal(State(), failing, call, table)
    }

    predicate Serves(call: Call, table: string)
      reads this
    {
      Refusal(call, table).None?
    }

    /** `file` is what the database file holds before the first connection. */
    constructor (sqliteFilename: string, file: Store, failing: map<Call, string>)
      ensures Valid() && log == []
      ensures this.sqliteFilename == sqliteFilename && this.failing == failing
      ensures State() == DriverState(Absent, true, false, file, file)
    {
      this.sqliteFilename := sqliteFilename;
      this.failing := failing;
      conn := Absent;
      autoCommit := true;
      foreignKeys := false;
      committed := file;
      pending := file;
      log := [];
    }

    /** Opens a connection, enables foreign keys and turns auto-commit off; refuses when
        a connection is already open. */
    method Connect() returns (r: Result<()>)
      requires Valid()
      modifies this
      ensures Valid() && log == old(log) + [Call.Connect]
      ensures old(conn) == Opened ==> r == Err(IllegalState(AlreadyOpened)) && State() == old(State())
      ensures old(conn) != Opened ==>
                r == Ok(()) && State() == old(State()).(conn := Opened, autoCommit := false, foreignKeys := true)
    {
      log := log + [Call.Connect];
      if conn == Opened {
        return Err(IllegalState(AlreadyOpened));
      }
      conn := Opened;
      foreignKeys := true;
      autoCommit := false;
      r := Ok(());
    }

    /** Makes the pending changes the new rollback point. */
    method Commit() returns (r: Result<()>)
      requires Valid()
      modifies this
      ensures Valid() && log == old(log) + [Call.Commit]
      ensures old(conn) != Opened ==> r == Err(IllegalState(NotOpened)) && State() == old(State())
      ensures old(conn) == Opened && Call.Commit in failing ==>
                r == Err(SqlError(failing[Call.Commit])) && State() == old(State())
      ensures old(conn) == Opened && Call.Commit !in failing ==>
                r == Ok(()) && State() == old(State()).(committed := old(pending))
    {
      log := log + [Call.Commit];
      if conn != Opened {
        return Err(IllegalState(NotOpened));
      }
      if Call.Commit in failing {
        return Err(SqlError(failing[Call.Commit]));
      }
      committed := pending;
      r := Ok(());
    }

    /** Returns to the last commit, or to what the file held when the connection opened. */
    method Rollback() returns (r: Result<()>)
      requires Valid()
      modifies this
      ensures Valid() && log == old(log) + [Call.Rollback]
      ensures old(conn) != Opened ==> r == Err(IllegalState(NotOpened)) && State() == old(State())
      ensures old(conn) == Opened && Call.Rollback in failing ==>
                r == Err(SqlError(failing[Call.Rollback])) && State() == old(State())
      ensures old(conn) == Opened && Call.Rollback !in failing ==>
                r == Ok(()) && State() == old(State()).(pending := old(committed))
    {
      log := log + [Call.Rollback];
      if conn != Opened {
        return Err(IllegalState(NotOpened));
      }
      if Call.Rollback in failing {
        return Err(SqlError(failing[Call.Rollback]));
      }
      pending := committed;
      r := Ok(());
    }

    /** Closes the connection; SQLite discards a transaction left uncommitted. A close
        that throws leaves the connection as it was. */
    method Disconnect() returns (r: Result<()>)
      requires Valid()
      modifies this
      ensures Valid() && log == old(log) + [Call.Disconnect]
      ensures old(conn) != Opened ==> r == Err(IllegalState(NotOpened)) && State() == old(State())
      ensures old(conn) == Opened && Call.Disconnect in failing ==>
                r == Err(SqlError(failing[Call.Disconnect])) && State() == old(State())
      ensures old(conn) == Opened && Call.Disconnect !in failing ==>
                r == Ok(()) && State() == old(State()).(conn := Closed, pending := old(committed))
    {
      log := log + [Call.Disconnect];
      if conn != Opened {
        return Err(IllegalState(NotOpened));
      }
      if Call.Disconnect in failing {
        return Err(SqlError(failing[Call.Disconnect]));
      }
      conn := Closed;
      pending := committed;
      r := Ok(());
    }

    /** CREATE TABLE IF NOT EXISTS for users, courses and reviews. There is no guard: a
        null connection is a NullPointerException, a closed one an SQLException. */
    method CreateTables() returns (r: Result<()>)
      requires Valid()
      modifies this
      ensures Valid() && log == old(log) + [Call.CreateTables]
      ensures old(conn) == Absent ==> r == Err(NullPointer) && State() == old(State())
      ensures old(conn) == Closed ==> r == Err(SqlError(ConnectionClosed)) && State() == old(State())
      ensures old(conn) == Opened && Call.CreateTables in failing ==>
                r == Err(SqlError(failing[Call.CreateTables])) && State() == old(State())
      ensures old(conn) == Opened && Call.CreateTables !in failing ==>
                r == Ok(()) && State() == old(State()).(pending := WithSchema(old(pending)))
    {
      log := log + [Call.CreateTables];
      if conn == Absent {
        return Err(NullPointer);
      }
      if conn == Closed {
        return Err(SqlError(ConnectionClosed));
      }
      if Call.CreateTables in failing {
        return Err(SqlError(failing[Call.CreateTables]));
      }
      pending := WithSchema(pending);
      r := Ok(());
    }

    // ------------------------------------------------------------ repository

    method UserExists(username: string) returns (r: Result<bool>)
      requires Valid()
      modifies this
      ensures Valid() && log == old(log) + [Call.UserExists] && State() == old(State())
      ensures r == Answer(Refusal(Call.UserExists, UsersTable), HasUser(pending.users, username))
    {
      log := log + [Call.UserExists];
      r := Answer(Refusal(Call.UserExists, UsersTable), HasUser(pending.users, username));
    }

    method GetPasswordForUser(username: string) returns (r: Result<Option<string>>)
      requires Valid()
      modifies this
      ensures Valid() && log == old(log) + [Call.GetPasswordForUser] && State() == old(State())
      ensures r == Answer(Refusal(Call.GetPasswordForUser, UsersTable), PasswordOf(pending.users, username))
    {
      log := log + [Call.GetPasswordForUser];
      r := Answer(Refusal(Call.GetPasswordForUser, UsersTable), PasswordOf(pending.users, username));
    }

    method GetUserByUsername(username: string) returns (r: Result<Option<User>>)
      requires Valid()
      modifies this
      ensures Valid() && log == old(log) + [Call.GetUserByUsername] && State() == old(State())
      ensures r == Answer(Refusal(Call.GetUserByUsername, UsersTable), FindUser(pending.users, username))
    {
      log := log + [Call.GetUserByUsername];
      r := Answer(Refusal(Call.GetUserByUsername, UsersTable), FindUser(pending.users, username));
    }

    /** Inserts a user; usernames are UNIQUE in the users table. */
    method AddUser(username: string, password: string) returns (r: Result<()>)
      requires Valid()
      modifies this
      ensures Valid() && log == old(log) + [Call.AddUser]
      ensures old(Refusal(Call.AddUser, UsersTable)).Some? ==>
                r == Err(old(Refusal(Call.AddUser, UsersTable)).value) && State() == old(State())
      ensures old(Serves(Call.AddUser, UsersTable)) && HasUser(old(pending.users), username) ==>
                r == Err(SqlError(UsernameTaken)) && State() == old(State())
      ensures old(Serves(Call.AddUser, UsersTable)) && !HasUser(old(pending.users), username) ==>
                r == Ok(()) && State() == old(State()).(pending := InsertUser(old(pending), username, password))
    {
      log := log + [Call.AddUser];
      var refusal := Refusal(Call.AddUser, UsersTable);
      if refusal.Some? {
        return Err(refusal.value);
      }
      if HasUser(pending.users, username) {
        return Err(SqlError(UsernameTaken));
      }
      pending := InsertUser(pending, username, password);
      r := Ok(());
    }

    method AddCourse(course: Course) returns (r: Result<()>)
      requires Valid()
      modifies this
      ensures Valid() && log == old(log) + [Call.AddCourse]
      ensures r == Answer(old(Refusal(Call.AddCourse, CoursesTable)), ())
      ensures r.Err? ==> State() == old(State())
      ensures r.Ok? ==>
                State() == old(State()).(pending := InsertCourse(old(pending), course.subject, course.courseNumber, course.title))
    {
      log := log + [Call.AddCourse];
      var refusal := Refusal(Call.AddCourse, CoursesTable);
      if refusal.Some? {
        return Err(refusal.value);
      }
      pending := InsertCourse(pending, course.subject, course.courseNumber, course.title);
      r := Ok(());
    }

    /** getCoursesBySubject, getCoursesByNumber and getCoursesByTitle: one new Course
        object per matching row. */
    method GetCourses(criterion: Criterion) returns (r: Result<seq<Course>>)
      requires Valid()
      modifies this
      ensures Valid() && log == old(log) + [QueryCall(criterion)] && State() == old(State())
      ensures r.Err? <==> Refusal(QueryCall(criterion), CoursesTable).Some?
      ensures r.Err? ==> r.failure == Refusal(QueryCall(criterion), CoursesTable).value
      ensures r.Ok? ==>
                var rows := Matching(pending.courses, criterion);
                |r.value| == |rows| && Distinct(r.value) &&
                forall i :: 0 <= i < |rows| ==> fresh(r.value[i]) && RowOf(r.value[i]) == rows[i]
    {
      log := log + [QueryCall(criterion)];
      var refusal := Refusal(QueryCall(criterion), CoursesTable);
      if refusal.Some? {
        return Err(refusal.value);
      }
      var courses := Materialize(Matching(pending.courses, criterion));
      r := Ok(courses);
    }

    /** getAllCoursesWithRatings: one new object per stored course, in store order. The
        averages it would attach are not part of this model. */
    method GetAllCoursesWithRatings() returns (r: Result<seq<Course>>)
      requires Valid()
      modifies this
      ensures Valid() && log == old(log) + [Call.GetAllCoursesWithRatings] && State() == old(State())
      ensures r.Err? <==> Refusal(Call.GetAllCoursesWithRatings, CoursesTable).Some?
      ensures r.Err? ==> r.failure == Refusal(Call.GetAllCoursesWithRatings, CoursesTable).value
      ensures r.Ok? ==>
                var rows := pending.courses;
                |r.value| == |rows| && Distinct(r.value) &&
                forall i :: 0 <= i < |rows| ==> fresh(r.value[i]) && RowOf(r.value[i]) == rows[i]
    {
      log := log + [Call.GetAllCoursesWithRatings];
      var refusal := Refusal(Call.GetAllCoursesWithRatings, CoursesTable);
      if refusal.Some? {
        return Err(refusal.value);
      }
      var courses := Materialize(pending.courses);
      r := Ok(courses);
    }

    method GetReviewFromUserForCourse(user: User, course: Course) returns (r: Result<Option<ReviewRow>>)
      requires Valid()
      modifies this
      ensures Valid() && log == old(log) + [Call.GetReviewFromUserForCourse] && State() == old(State())
      ensures r == Answer(Refusal(Call.GetReviewFromUserForCourse, ReviewsTable),
                          FindReview(pending.reviews, user.id, course.courseID))
    {
      log := log + [Call.GetReviewFromUserForCourse];
      r := Answer(Refusal(Call.GetReviewFromUserForCourse, ReviewsTable),
                  FindReview(pending.reviews, user.id, course.courseID));
    }

    /** Inserts the review with its own userID and courseID fields. */
    method AddReview(review: Review) returns (r: Result<()>)
      requires Valid()
      modifies this
      ensures Valid() && log == old(log) + [Call.AddReview]
      ensures r == Answer(old(Refusal(Call.AddReview, ReviewsTable)), ())
      ensures r.Err? ==> State() == old(State())
      ensures r.Ok? ==>
                State() == old(State()).(pending := InsertReview(old(pending), review.userID, review.courseID,
                                                                 review.rating, review.entryTime, review.comment))
    {
      log := log + [Call.AddReview];
      var refusal := Refusal(Call.AddReview, ReviewsTable);
      if refusal.Some? {
        return Err(refusal.value);
      }
      pending := InsertReview(pending, review.userID, review.courseID, review.rating, review.entryTime, review.comment);
      r := Ok(());
    }

    /** Updates rating, entry time and comment of every row of the OLD review's
        (userID, courseID) pair, like an UPDATE ... WHERE: a pair without rows changes
        nothing. A null old review has no ids to read. */
    method EditReview(oldReview: Option<ReviewRow>, newReview: Review) returns (r: Result<()>)
      requires Valid()
      modifies this
      ensures Valid() && log == old(log) + [Call.EditReview]
      ensures old(Refusal(Call.EditReview, ReviewsTable)).Some? ==>
                r == Err(old(Refusal(Call.EditReview, ReviewsTable)).value) && State() == old(State())
      ensures old(Serves(Call.EditReview, ReviewsTable)) && oldReview.None? ==>
                r == Err(NullPointer) && State() == old(State())
      ensures old(Serves(Call.EditReview, ReviewsTable)) && oldReview.Some? ==>
                r == Ok(()) &&
                State() == old(State()).(pending := old(pending).(reviews :=
                  Edited(old(pending.reviews), oldReview.value.userID, oldReview.value.courseID,
                         newReview.rating, newReview.entryTime, newReview.comment)))
    {
      log := log + [Call.EditReview];
      var refusal := Refusal(Call.EditReview, ReviewsTable);
      if refusal.Some? {
        return Err(refusal.value);
      }
      if oldReview.None? {
        return Err(NullPointer);
      }
      pending := pending.(reviews := Edited(pending.reviews, oldReview.value.userID, oldReview.value.courseID,
                                            newReview.rating, newReview.entryTime, newReview.comment));
      r := Ok(());
    }

    /** Deletes the reviews of the (user, course) pair, like a DELETE ... WHERE. */
    method RemoveReview(course: Course, user: User) returns (r: Result<()>)
      requires Valid()
      modifies this
      ensures Valid() && log == old(log) + [Call.RemoveReview]
      ensures r == Answer(old(Refusal(Call.RemoveReview, ReviewsTable)), ())
      ensures r.Err? ==> State() == old(State())
      ensures r.Ok? ==>
                State() == old(State()).(pending := old(pending).(reviews :=
                  Removed(old(pending.reviews), user.id, course.courseID)))
    {
      log := log + [Call.RemoveReview];
      var refusal := Refusal(Call.RemoveReview, ReviewsTable);
      if refusal.Some? {
        return Err(refusal.value);
      }
      pending := pending.(reviews := Removed(pending.reviews, user.id, course.courseID));
      r := Ok(());
    }
  }

  /** The log entry of a course query. */
  function QueryCall(c: Criterion): Call
  {
    match c
    case SubjectIs(_) => Call.GetCoursesBySubject
    case NumberIs(_) => Call.GetCoursesByNumber
    case TitleContains(_) => Call.GetCoursesByTitle
  }

  /** The store after createTables: the three tables exist, rows untouched. */
  function WithSchema(s: Store): (r: Store)
    ensures Schema <= r.tables && s.tables <= r.tables
    ensures r.(tables := s.tables) == s
  {
    s.(tables := s.tables + Schema)
  }

  /** Creating the tables a second time changes nothing. */
  lemma CreateTablesIdempotent(s: Store)
    ensures WithSchema(WithSchema(s)) == WithSchema(s)
  {
  }

  // ---------------------------------------------------------------- scenarios

  /** connect, disconnect, connect: the guard only refuses an open connection, so all
      three succeed; in between, commit, rollback and disconnect all refuse. */
  method ReconnectAfterDisconnect(file: Store) returns (steps: seq<Result<()>>)
    ensures steps == [Ok(()), Ok(()), Err(IllegalState(NotOpened)), Err(IllegalState(NotOpened)),
                      Err(IllegalState(NotOpened)), Ok(()), Err(IllegalState(AlreadyOpened))]
  {
    var db := new DatabaseDriver("reviews.sqlite", file, map[]);
    var a := db.Connect();
    var b := db.Disconnect();
    var c := db.Commit();
    var d := db.Rollback();
    var e := db.Disconnect();
    var f := db.Connect();
    var g := db.Connect();
    steps := [a, b, c, d, e, f, g];
  }

  /** A rollback keeps what was committed and discards what came after the commit. */
  method RollbackKeepsCommitted(file: Store) returns (userKept: bool, courseKept: bool)
    requires Schema <= file.tables && !HasUser(file.users, "student")
    ensures userKept && !courseKept
  {
    var db := new DatabaseDriver("reviews.sqlite", file, map[]);
    var _ := db.Connect();
    var _ := db.AddUser("student", "password1");
    var _ := db.Commit();
    var course := new Course(0, "CS", 2150, "Software Development");
    var _ := db.AddCourse(course);
    var _ := db.Rollback();
    userKept := HasUser(db.pending.users, "student");
    courseKept := |db.pending.courses| > |file.courses|;
  }
}
