# Course reviews: a Dafny model

This project models the core of a JavaFX desktop application where students review
university courses. Its parts:

- **Database driver.** `DatabaseDriver` guards the connection for `connect`, `commit`,
  `rollback` and `disconnect`, and creates the tables idempotently. It also provides the
  repository operations the screens call: users, courses and reviews.
- **Course search screen.** A search by subject, number and title: the union of the
  three queries, put into a `HashSet` that compares objects by identity. It also adds a
  course after validating the three fields, then reloads the list.
- **Login screen.** Login and registration.
- **Course review screen.** Parses the rating, submits a review (a new one or an edit of
  the user's own) and deletes it.
- **Records.** `Course` and `Review`, with their setters and `toString`.

## How the model is built

- **Modules.** `Database`, `CourseSearch`, `Login` and `CourseReview` each model one
  source file. `Entities` models the two record classes, `Course.java` and `Review.java`. `JavaText` holds the JDK string operations
  the source relies on: `trim`, `toUpperCase`, `Integer.parseInt` and string
  concatenation of an `int`.
- **The driver.**
  - It is a class over a value `Store` (tables, users, courses, reviews, id counters).
  - Its state has a `committed` and a `pending` copy of the store, so `commit`,
    `rollback` and auto-commit can be stated.
  - A ghost `log` records every call made on it, so a contract can say which calls a
    handler made and in what order.
- **Store failures.** They are an input of the environment: the map `failing` says
  which calls throw an `SQLException`, and with what message.
  - A null connection makes a repository call throw `NullPointerException`.
  - A closed connection or a missing table makes it throw `SQLException`.
  - `StoreRefusal` states this once.
- **Exceptions.** They are values of `Failure`. A handler returns the exception that
  escapes it, if any.
- **The screens.** Each one is a class with its driver, its message label (`message`)
  and, for the search screen, the courses on the list view (`shown`).
- **Handler contracts.** Each handler is specified against a function of the driver
  state: `SearchIn`, `LoginIn`, `RegisterIn`, `AfterSubmit`. Lemmas about those
  functions state what the source promises.

## Model

| member | source | states |
|---|---|---|
| Database.DatabaseDriver.constructor | src/main/java/edu/virginia/sde/reviews/DatabaseDriver.java:9-11 | a new driver has no connection and an empty call log; committed and pending are both the file's contents |
| Database.DatabaseDriver.Connect | src/main/java/edu/virginia/sde/reviews/DatabaseDriver.java:13-24 | an open connection is refused with IllegalState "The connection is already opened"; otherwise the connection is open, foreign keys are on, auto-commit is off, and the stored data is unchanged |
| Database.DatabaseDriver.Commit | src/main/java/edu/virginia/sde/reviews/DatabaseDriver.java:26-31 | a null or closed connection gives IllegalState "The connection is not opened" and changes nothing; otherwise committed becomes pending, unless the store throws |
| Database.DatabaseDriver.Rollback | src/main/java/edu/virginia/sde/reviews/DatabaseDriver.java:33-41 | the same guard; otherwise pending goes back to the last commit, unless the store throws |
| Database.DatabaseDriver.Disconnect | src/main/java/edu/virginia/sde/reviews/DatabaseDriver.java:43-48 | the same guard; a close that throws an SQLException changes nothing; otherwise the connection is closed and uncommitted changes are dropped |
| Database.DatabaseDriver.CreateTables | src/main/java/edu/virginia/sde/reviews/DatabaseDriver.java:50-79 | no guard: a null connection gives NullPointer and a closed one an SQLException; otherwise the users, courses and reviews tables exist and no row changes |
| Database.WithSchema | src/main/java/edu/virginia/sde/reviews/DatabaseDriver.java:55-78 | after createTables the three tables are present, the earlier ones are kept, and rows are untouched |
| Database.CreateTablesIdempotent | src/main/java/edu/virginia/sde/reviews/DatabaseDriver.java:55-78 | CREATE TABLE IF NOT EXISTS: creating the tables twice is the same as creating them once |
| Database.ReconnectAfterDisconnect | src/main/java/edu/virginia/sde/reviews/DatabaseDriver.java:13-48 | connect, disconnect and connect all succeed; commit, rollback and a second disconnect in between are refused; a second connect is refused |
| Database.RollbackKeepsCommitted | src/main/java/edu/virginia/sde/reviews/DatabaseDriver.java:33-41 | after a commit, a rollback keeps the committed user and drops the course added after the commit |
| Database.StoreRefusal | src/main/java/edu/virginia/sde/reviews/DatabaseDriver.java:54 | a store call is served exactly when the connection is open, its table exists and the environment does not make it throw |
| Database.FindUser | src/main/java/edu/virginia/sde/reviews/LoginController.java:76-77 | a user found has that username and is stored; none is found exactly when no stored user has the name |
| Database.PasswordOf | src/main/java/edu/virginia/sde/reviews/LoginController.java:72-73 | a stored password exists exactly when the user exists, and it is the password of the first user with that name |
| Database.InsertUser | src/main/java/edu/virginia/sde/reviews/LoginController.java:115 | adding a user appends it under the next id and changes nothing else |
| Database.DatabaseDriver.UserExists | src/main/java/edu/virginia/sde/reviews/LoginController.java:71 | answers whether the name is taken, or the store's refusal; the store is unchanged |
| Database.DatabaseDriver.GetPasswordForUser | src/main/java/edu/virginia/sde/reviews/LoginController.java:72 | answers the stored password of the name, or the refusal; the store is unchanged |
| Database.DatabaseDriver.GetUserByUsername | src/main/java/edu/virginia/sde/reviews/LoginController.java:76 | answers the user with the name, or the refusal; the store is unchanged |
| Database.DatabaseDriver.AddUser | src/main/java/edu/virginia/sde/reviews/LoginController.java:115 | a taken username violates the unique constraint (SQLException) and changes nothing; otherwise the user is inserted into pending |
| Database.Matching | src/main/java/edu/virginia/sde/reviews/CourseSearchController.java:65-74 | a query's rows are exactly the stored rows that match its criterion |
| Database.InsertCourse | src/main/java/edu/virginia/sde/reviews/CourseSearchController.java:119 | adding a course appends it under the next id and changes nothing else |
| Database.Materialize | src/main/java/edu/virginia/sde/reviews/CourseSearchController.java:65-74 | a query returns one new Course object per row, pairwise distinct, with no average |
| Database.DatabaseDriver.GetCourses | src/main/java/edu/virginia/sde/reviews/CourseSearchController.java:65-74 | a query fails exactly when the store refuses it; otherwise it returns fresh objects for the matching rows; the store is unchanged |
| Database.DatabaseDriver.GetAllCoursesWithRatings | src/main/java/edu/virginia/sde/reviews/CourseSearchController.java:46 | fails exactly when the store refuses it; otherwise it returns one fresh object per stored course, in store order; the store is unchanged |
| Database.DatabaseDriver.AddCourse | src/main/java/edu/virginia/sde/reviews/CourseSearchController.java:119 | the course is inserted into pending from the object's fields, or the refusal is returned and nothing changes |
| Database.FindReview | src/main/java/edu/virginia/sde/reviews/CourseReviewController.java:68 | a review found belongs to the (user, course) pair; none is found exactly when no review belongs to it |
| Database.Edited | src/main/java/edu/virginia/sde/reviews/CourseReviewController.java:69 | editing changes only the pair's reviews, to the new rating, entry time and comment, and keeps their count |
| Database.Removed | src/main/java/edu/virginia/sde/reviews/CourseReviewController.java:93 | removal keeps exactly the reviews of the other pairs |
| Database.InsertReview | src/main/java/edu/virginia/sde/reviews/CourseReviewController.java:71 | adding a review appends it under the next id and changes nothing else |
| Database.EditedSamePairs | src/main/java/edu/virginia/sde/reviews/CourseReviewController.java:69 | an edit does not move any review to another pair |
| Database.EditedKeepsPairs | src/main/java/edu/virginia/sde/reviews/CourseReviewController.java:69 | an edit keeps one review per pair, and the pair keeps its review |
| Database.RemovedKeepsPairs | src/main/java/edu/virginia/sde/reviews/CourseReviewController.java:93 | removal keeps one review per pair, and leaves the pair without a review |
| Database.AppendKeepsPairs | src/main/java/edu/virginia/sde/reviews/CourseReviewController.java:71 | adding a review for a pair without one keeps one review per pair |
| Database.DatabaseDriver.GetReviewFromUserForCourse | src/main/java/edu/virginia/sde/reviews/CourseReviewController.java:68 | answers the review of the user for the course, if any, or the refusal; the store is unchanged |
| Database.DatabaseDriver.AddReview | src/main/java/edu/virginia/sde/reviews/CourseReviewController.java:71 | inserts the review with the object's own user and course ids, or returns the refusal and changes nothing |
| Database.DatabaseDriver.EditReview | src/main/java/edu/virginia/sde/reviews/CourseReviewController.java:69 | a null old review gives NullPointer and changes nothing; otherwise the old review's pair is edited with the new review's rating, entry time and comment |
| Database.DatabaseDriver.RemoveReview | src/main/java/edu/virginia/sde/reviews/CourseReviewController.java:93 | removes the user's reviews of the course, or returns the refusal and changes nothing |
| Entities.Course.constructor | src/main/java/edu/virginia/sde/reviews/Course.java:13-19 | the fields take the arguments and the average rating is null |
| Entities.Course.SetCourseID | src/main/java/edu/virginia/sde/reviews/Course.java:28-30 | only the course id changes |
| Entities.Course.SetSubject | src/main/java/edu/virginia/sde/reviews/Course.java:36-38 | only the subject changes |
| Entities.Course.SetCourseNumber | src/main/java/edu/virginia/sde/reviews/Course.java:44-46 | only the course number changes |
| Entities.Course.SetTitle | src/main/java/edu/virginia/sde/reviews/Course.java:52-54 | only the title changes |
| Entities.Course.SetAverageRating | src/main/java/edu/virginia/sde/reviews/Course.java:60-62 | only the average rating changes |
| Entities.Course.ToString | src/main/java/edu/virginia/sde/reviews/Course.java:64-68 | "subject number: title", followed by " - Avg Rating: " and the average when there is one; the label reads back to its subject and course number |
| Entities.LabelReadsBack | src/main/java/edu/virginia/sde/reviews/Course.java:65-67 | the text before the first space is the subject, and the text between it and the first ':' parses to the course number |
| Entities.Review.constructor | src/main/java/edu/virginia/sde/reviews/Review.java:15-25 | the fields take the arguments in parameter order, and the timestamp is the clock reading at construction |
| Entities.Review.Empty | src/main/java/edu/virginia/sde/reviews/Review.java:27-28 | Java's defaults: zero ids and rating, null entry time and comment, and the timestamp from the field initialiser |
| Entities.Review.SetId | src/main/java/edu/virginia/sde/reviews/Review.java:34-36 | only the id changes |
| Entities.Review.SetUserID | src/main/java/edu/virginia/sde/reviews/Review.java:42-44 | only the user id changes |
| Entities.Review.SetCourseID | src/main/java/edu/virginia/sde/reviews/Review.java:50-52 | only the course id changes |
| Entities.Review.SetRating | src/main/java/edu/virginia/sde/reviews/Review.java:58-60 | only the rating changes |
| Entities.Review.SetEntryTime | src/main/java/edu/virginia/sde/reviews/Review.java:66-68 | only the entry time changes; the last-updated timestamp does not follow it |
| Entities.Review.SetComment | src/main/java/edu/virginia/sde/reviews/Review.java:74-76 | only the comment changes |
| Entities.Review.SetTimestamp | src/main/java/edu/virginia/sde/reviews/Review.java:82-84 | only the timestamp changes; the entry time is kept |
| Entities.Review.ToString | src/main/java/edu/virginia/sde/reviews/Review.java:86-92 | when no part holds a line break, the text splits into exactly four lines: rating out of 5, date posted, comment, last updated ("null" for a missing part) |
| Entities.LinesPrepend | src/main/java/edu/virginia/sde/reviews/Review.java:88-91 | a line put before text with a line break adds exactly that line in front of the text's lines |
| Entities.ReviewTextLines | src/main/java/edu/virginia/sde/reviews/Review.java:88-91 | the four parts joined by line breaks split back into those four lines |
| CourseSearch.IsSubjectCode | src/main/java/edu/virginia/sde/reviews/CourseSearchController.java:109 | a text matching [A-Z]{2,4} has no padding character and no lower-case letter |
| CourseSearch.SubjectCodeStoredAsTyped | src/main/java/edu/virginia/sde/reviews/CourseSearchController.java:104-109 | a subject code is left unchanged by trimming and upper-casing, so it is stored as typed |
| CourseSearch.ValidCourseInput | src/main/java/edu/virginia/sde/reviews/CourseSearchController.java:109-113 | accepted input has a subject in stored form |
| CourseSearch.NormalizeSubject | src/main/java/edu/virginia/sde/reviews/CourseSearchController.java:104 | the stored subject has no surrounding whitespace and no lower-case letter |
| CourseSearch.NormalizeSubjectIdempotent | src/main/java/edu/virginia/sde/reviews/CourseSearchController.java:104 | trimming and upper-casing twice is the same as once |
| CourseSearch.PaddedSubjectAccepted | src/main/java/edu/virginia/sde/reviews/CourseSearchController.java:104-109 | letters in any case and with any padding pass the [A-Z]{2,4} check exactly when there are 2 to 4 of them, and are stored upper-cased |
| CourseSearch.UpperLettersCode | src/main/java/edu/virginia/sde/reviews/CourseSearchController.java:104-109 | upper-cased letters match [A-Z]{2,4} exactly when there are two to four of them |
| CourseSearch.LowerCaseSubjectAccepted | src/main/java/edu/virginia/sde/reviews/CourseSearchController.java:104-109 | " cs " with number "2150" and a title is valid input and is stored as "CS" |
| CourseSearch.FourCharacterNumberRange | src/main/java/edu/virginia/sde/reviews/CourseSearchController.java:109-115 | the only number check is its length, so a number that passes and parses lies between -999 and 9999 |
| CourseSearch.NegativeNumberAccepted | src/main/java/edu/virginia/sde/reviews/CourseSearchController.java:109-115 | "-123" passes the length check and becomes course number -123 |
| CourseSearch.NonNumericNumberRejectedByParse | src/main/java/edu/virginia/sde/reviews/CourseSearchController.java:109-115 | "12ab" passes the length check but does not parse |
| CourseSearch.Hits | src/main/java/edu/virginia/sde/reviews/CourseSearchController.java:61-75 | every hit is a stored row, at most three hits per stored row, and no hits without a criterion |
| CourseSearch.HitsAreUnion | src/main/java/edu/virginia/sde/reviews/CourseSearchController.java:61-75 | a row is a hit exactly when it matches at least one filled-in criterion |
| CourseSearch.Search | src/main/java/edu/virginia/sde/reviews/CourseSearchController.java:56-87 | "no criteria" exactly when all three fields are empty; a bad number only for a filled-in number that does not parse; a refusal is one of the three queries' refusals; otherwise the hits are the subject, number and title results in that order |
| CourseSearch.SearchIn | src/main/java/edu/virginia/sde/reviews/CourseSearchController.java:57-75 | over the trimmed field texts, the hits are stored rows and a refusal is one of the three queries' refusals |
| CourseSearch.ServedSearchFinds | src/main/java/edu/virginia/sde/reviews/CourseSearchController.java:63-87 | with the queries served and some field filled in, the search finds its hits, or reports a bad number exactly when the number does not parse |
| CourseSearch.BlankFieldsNoCriteria | src/main/java/edu/virginia/sde/reviews/CourseSearchController.java:57-81 | the search has no criteria exactly when all three field texts are whitespace only |
| CourseSearch.SearchIgnoresPadding | src/main/java/edu/virginia/sde/reviews/CourseSearchController.java:57-59 | padding the field texts does not change what the search comes to |
| CourseSearch.DistinctCard | src/main/java/edu/virginia/sde/reviews/CourseSearchController.java:90 | the HashSet of distinct objects holds as many elements as the list |
| CourseSearch.CourseSearchController.constructor | src/main/java/edu/virginia/sde/reviews/CourseSearchController.java:29 | a screen over the driver starts with an empty list and no message |
| CourseSearch.CourseSearchController.SearchFailed | src/main/java/edu/virginia/sde/reviews/CourseSearchController.java:92-94 | an SQLException shows "Unable to search courses."; any other exception escapes; the list is kept |
| CourseSearch.CourseSearchController.Collect | src/main/java/edu/virginia/sde/reviews/CourseSearchController.java:63-75 | a criterion in use runs one query, and a criterion not in use asks nothing; the objects held so far stay a prefix, followed by new objects for the matching rows; it fails exactly when the store refuses the query |
| CourseSearch.CourseSearchController.Gather | src/main/java/edu/virginia/sde/reviews/CourseSearchController.java:61-75 | the queries run in source order and stop at the first refusal or an unparsable number; otherwise they yield one newly created object per hit |
| CourseSearch.CourseSearchController.HandleSearch | src/main/java/edu/virginia/sde/reviews/CourseSearchController.java:55-99 | the store is unchanged; with no criteria nothing is asked of it; a bad number or an SQLException leaves the list and shows its message; no hits shows "No courses found."; otherwise the list is made of distinct new objects standing one by one for the hits, so a row hit twice is shown by two objects |
| CourseSearch.CourseSearchController.Report | src/main/java/edu/virginia/sde/reviews/CourseSearchController.java:77-91 | the message and list for each search outcome, checked in source order; with hits the list is the set of the query objects, one per hit |
| CourseSearch.CourseSearchController.List | src/main/java/edu/virginia/sde/reviews/CourseSearchController.java:90-91 | the list view becomes the HashSet of the query objects, which still stand for their rows, and the message is kept |
| CourseSearch.StandsOnePerHit | src/main/java/edu/virginia/sde/reviews/CourseSearchController.java:89-91 | the HashSet of the query objects holds as many objects as there are hits, each standing for a hit, and every hit is stood for |
| CourseSearch.AppendStands | src/main/java/edu/virginia/sde/reviews/CourseSearchController.java:61-75 | adding the objects of a further query keeps each object standing for its own row |
| CourseSearch.OverlapListedTwice | src/main/java/edu/virginia/sde/reviews/CourseSearchController.java:89-91 | as written: a course matching subject and title is a hit twice, so the objects standing for the hits, put into the identity-based HashSet, are two objects for that one course |
| CourseSearch.DistinctRows | src/main/java/edu/virginia/sde/reviews/CourseSearchController.java:89-90 | corrected: removing duplicates by row keeps exactly the rows of the hits, each once |
| CourseSearch.DistinctRowsKeepsDistinct | src/main/java/edu/virginia/sde/reviews/CourseSearchController.java:89-90 | hits that are already distinct are kept as they are, in order |
| CourseSearch.OverlapListedOnce | src/main/java/edu/virginia/sde/reviews/CourseSearchController.java:89-90 | corrected: a course matching subject and title is listed once |
| CourseSearch.CourseSearchController.LoadCourses | src/main/java/edu/virginia/sde/reviews/CourseSearchController.java:44-51 | the list becomes one new object per stored course; an SQLException shows "Unable to load courses." and keeps the list; anything else escapes; the store is unchanged |
| CourseSearch.CourseSearchController.AddParsed | src/main/java/edu/virginia/sde/reviews/CourseSearchController.java:118-124 | add, commit, then reload the list; an SQLException from the add or the commit shows "Unable to add course." and keeps the list; a refusal stops before the commit; a failed reload shows "Unable to load courses." |
| CourseSearch.CourseSearchController.HandleCourseAdd | src/main/java/edu/virginia/sde/reviews/CourseSearchController.java:102-125 | invalid input shows "Invalid input." and touches nothing; a valid number that does not parse escapes; otherwise the course with the normalised fields is added and committed, and after a good commit the list shows one new object per stored course, the new one included |
| Login.CredentialProblem | src/main/java/edu/virginia/sde/reviews/LoginController.java:61-68 | empty fields are reported first, then a password under 8 characters; the credentials pass exactly when the username is non-empty and the password has at least 8 characters |
| Login.LookupIn | src/main/java/edu/virginia/sde/reviews/LoginController.java:70-95 | a user signed in is stored with exactly that username and password |
| Login.LoginIn | src/main/java/edu/virginia/sde/reviews/LoginController.java:57-96 | a login is invalid exactly when the credentials are, with that message; otherwise it comes to the lookups |
| Login.LoginSucceedsIff | src/main/java/edu/virginia/sde/reviews/LoginController.java:71-92 | with the store answering, sign-in happens exactly when the stored password equals the typed one; an unknown user and a wrong password are told apart |
| Login.RegisterIn | src/main/java/edu/virginia/sde/reviews/LoginController.java:99-117 | rejected exactly on bad credentials, with the credential check's message; with the lookup served, taken exactly when the name is stored; with both calls served and the name free, registered; a store failure is one of the two calls' refusals |
| Login.FindUserAppend | src/main/java/edu/virginia/sde/reviews/LoginController.java:115 | after appending a user, earlier users with the name still come first |
| Login.RegistrationAddsOnlyThatUser | src/main/java/edu/virginia/sde/reviews/LoginController.java:115 | registration makes the name find the new user; every other name finds what it found before; usernames stay unique |
| Login.LoginAfterRegistration | src/main/java/edu/virginia/sde/reviews/LoginController.java:112-116 | after a registration, logging in with the same credentials signs in the new user |
| Login.LoginController.constructor | src/main/java/edu/virginia/sde/reviews/LoginController.java:27-29 | a screen over the driver, with no message and nobody signed in |
| Login.LoginController.Lookup | src/main/java/edu/virginia/sde/reviews/LoginController.java:70-95 | the message and the signed-in user for each lookup outcome; every exception is caught |
| Login.LoginController.HandleLogin | src/main/java/edu/virginia/sde/reviews/LoginController.java:57-96 | the store is unchanged; bad credentials ask nothing of it; each outcome of LoginIn shows its message, and only a sign-in hands on a user |
| Login.LoginController.Recover | src/main/java/edu/virginia/sde/reviews/LoginController.java:118-125 | the rollback's IllegalStateException escapes; otherwise "Error while creating user." is shown, even when the rollback throws |
| Login.LoginController.CreateFailed | src/main/java/edu/virginia/sde/reviews/LoginController.java:118-125 | only an SQLException is caught, and it leads to the rollback |
| Login.LoginController.HandleCreateUser | src/main/java/edu/virginia/sde/reviews/LoginController.java:99-127 | nothing is committed; bad credentials and a taken name change nothing; a new name is inserted, and only it; a store failure rolls back all uncommitted changes |
| CourseReview.ParseRating | src/main/java/edu/virginia/sde/reviews/CourseReviewController.java:82-88 | succeeds exactly for an integer from 1 to 5, with that value; unparsable text gives NumberFormat and an out-of-range value gives IllegalArgument "Rating must be between 1 and 5." |
| CourseReview.RatingReadsBack | src/main/java/edu/virginia/sde/reviews/CourseReviewController.java:82-88 | a printed int is accepted as itself exactly when it is from 1 to 5, and refused with the range message otherwise |
| CourseReview.AfterSubmit | src/main/java/edu/virginia/sde/reviews/CourseReviewController.java:68-72 | corrected: a submit edits the pair's review when it has one, keeping the count, and otherwise adds one; users and courses are untouched |
| CourseReview.FindReviewEdited | src/main/java/edu/virginia/sde/reviews/CourseReviewController.java:69 | after an edit, the pair's review carries the new rating, entry time and comment |
| CourseReview.FindReviewEditedOther | src/main/java/edu/virginia/sde/reviews/CourseReviewController.java:69 | an edit leaves every other pair's review as it was |
| CourseReview.FindReviewAppend | src/main/java/edu/virginia/sde/reviews/CourseReviewController.java:71 | after an add, earlier reviews of a pair still come first |
| CourseReview.SubmitUpserts | src/main/java/edu/virginia/sde/reviews/CourseReviewController.java:61-80 | a submit keeps one review per pair; the pair's review then has the submitted rating, entry time and comment, and every other pair's review is unchanged |
| CourseReview.SubmitTwiceAddsOnce | src/main/java/edu/virginia/sde/reviews/CourseReviewController.java:68-72 | a second submit for the same pair edits, so the number of reviews does not grow |
| CourseReview.AfterSubmitAsWritten | src/main/java/edu/virginia/sde/reviews/CourseReviewController.java:65-72 | as written: a found review leads to NullPointer, and otherwise a review is added with its user and course ids swapped |
| CourseReview.SwappedSubmitDuplicates | src/main/java/edu/virginia/sde/reviews/CourseReviewController.java:65-71 | as written, two submits by user 1 for course 2 add two reviews under the pair (2, 1), so pairs are no longer unique and the user's own review is never found |
| CourseReview.SecondSubmitAsWrittenHitsNullEdit | src/main/java/edu/virginia/sde/reviews/CourseReviewController.java:68-69 | as written, with user 7 and course 7 the second submit reaches editReview(null, ...) and throws NullPointer |
| CourseReview.CourseReviewController.constructor | src/main/java/edu/virginia/sde/reviews/CourseReviewController.java:33-37 | a screen for the given course and user, with no message |
| CourseReview.CaughtOnSubmit | src/main/java/edu/virginia/sde/reviews/CourseReviewController.java:77-79 | exactly NullPointerException and IllegalStateException escape the submit handler |
| CourseReview.Handled | src/main/java/edu/virginia/sde/reviews/CourseReviewController.java:77-79 | nothing escapes exactly when the failure is caught; an escaping failure is the failure itself and leaves the message |
| CourseReview.CourseReviewController.SubmitFailed | src/main/java/edu/virginia/sde/reviews/CourseReviewController.java:77-79 | SQLException and IllegalArgumentException (NumberFormatException included) show their own message; anything else escapes |
| CourseReview.CourseReviewController.Finish | src/main/java/edu/virginia/sde/reviews/CourseReviewController.java:74-76 | the commit, then "Review submitted successfully.", or the commit's SQLException message |
| CourseReview.CourseReviewController.Store | src/main/java/edu/virginia/sde/reviews/CourseReviewController.java:68-76 | lookup, then edit or add, then commit; the first failing call ends the submit, and the null edit throws before the commit |
| CourseReview.CourseReviewController.Write | src/main/java/edu/virginia/sde/reviews/CourseReviewController.java:68-76 | with a review found the pair is edited (or, as written, the edit gets null and throws), otherwise the review is added; the commit follows only a successful write |
| CourseReview.CourseReviewController.HandleSubmitReview | src/main/java/edu/virginia/sde/reviews/CourseReviewController.java:61-80 | corrected: an invalid rating touches nothing; otherwise the store becomes AfterSubmit of the right pair, committed only after a successful write, with each call's failure handled as the catch clause says |
| CourseReview.CourseReviewController.HandleSubmitReviewAsWritten | src/main/java/edu/virginia/sde/reviews/CourseReviewController.java:61-80 | as written: the store becomes AfterSubmitAsWritten; an existing review makes the edit throw NullPointer, which escapes the handler |
| CourseReview.CourseReviewController.HandleDeleteReview | src/main/java/edu/virginia/sde/reviews/CourseReviewController.java:91-100 | the user's reviews of the course are removed, then committed; an SQLException from either shows "Error deleting review: " and its message; a refusal stops before the commit |

## Left out

- **Repository operations.** `userExists`, `getPasswordForUser`, `getUserByUsername`,
  `addUser`, `addCourse`, `getCoursesBy*`, `getAllCoursesWithRatings`, `getReviewFromUserForCourse`, `addReview`,
  `editReview`, `removeReview` and `getInstance` are called by the screens but are not
  in `DatabaseDriver.java`.
  - They are modelled by the least their callers rely on.
  - The subject and number queries match exactly. The title query matches a substring,
    ignoring ASCII case.
  - `editReview` edits the pair of its old review.
  - The schema `createTables` writes does not fit these operations (for example, the
    courses table has no subject column), so rows are modelled as the entities, not as
    the declared columns.
- **User.** `User.java` is not part of this model. A user is a value with an id, a
  username and a password.
- **SQL and JDBC.** The statements, the SQL engine and its exact exception texts are not
  modelled. Which call throws is an input, `failing`.
- Database.DatabaseDriver.Connect: `DriverManager.getConnection` and the PRAGMA statement never fail in the model, so the `SQLException` they can throw is not modelled.
- Database.DatabaseDriver.GetAllCoursesWithRatings: the average ratings it attaches to the courses are not stated; the reload after an add promises only the rows.
- Database.DatabaseDriver.EditReview: an edit whose pair has no review changes nothing and succeeds; a not-found error is not raised, because the body of `editReview` is not part of the source.
- Database.DatabaseDriver.RemoveReview: a removal with no review of the pair changes nothing and succeeds; a not-found error is not raised, for the same reason.
- JavaText.ParseInt: only the ASCII digits '0' to '9' are digits. `Integer.parseInt` also accepts other Unicode decimal digits, so for a number such as "١٢٣٤" the model's `HandleCourseAdd` escapes with NumberFormat and `HandleSearch` shows "Invalid course number.", where Java would use course number 1234.
- Database.DatabaseDriver.CreateTables: a failing call changes nothing. In the source the three CREATE TABLE statements run one after another, so a failure in the second or third leaves the earlier tables in the uncommitted state.
- Database.DatabaseDriver.Disconnect: a close that throws is modelled as leaving the connection open and the state unchanged; what JDBC leaves behind after a failed close is not modelled.
- **Concurrency.** The driver is used by one thread.
- **UI.** `loadReviews`, `updateCourseInfo`, `initialize`, `handleBack`,
  `handleCourseSelect`, `handleMyReviews`, `handleLogOut`, `handleClose`,
  `Platform.runLater` and screen switching are UI code and are not modelled.
  - `signedIn` stands for the user handed to the next screen.
- **Course average.** `calculateAverageReviewForCourse` and the average-rating label are
  not modelled.
- **Other classes.** `Configuration`, `MyReviewsController` and `CourseReviewApplication`
  are context, not core.
- **LoginController constructor.** It is not modelled. Its catch block dereferences a
  label that is still null while the object is being constructed. The model's
  constructor takes a driver that was already set up.
- **Getters.** They are plain field reads and need no model.
- **Course no-argument constructor.** It leaves the strings null, and the core never
  calls it.
- **Five-argument Course constructor.** `new Course(0, subject, number, title, null)` in
  `handleCourseAdd` has no matching constructor in `Course.java`. The model uses the
  four-argument constructor, with no average.
- **Strings.** They are sequences of characters.
  - `trim` strips characters up to U+0020.
  - `toUpperCase` and `toLowerCase` map only ASCII letters.
  - `length` counts characters, not UTF-16 units.
- **Floating point.** `String.format("%.2f")` of the average and `Timestamp.toString`
  are parameters of the `toString` functions.
- **Clock.** `System.currentTimeMillis()` is a parameter. `HandleSubmitReview` uses one
  reading both for the entry time and for the review's `timestamp` field.
- **HashSet order.** The `HashSet` in `handleSearch` is modelled as a set, so the
  display order of the list view is not modelled.
- **Integers.** Java `int` fields are unbounded integers. Only the 32-bit range check of
  `Integer.parseInt` is modelled.

## Findings

| source | as written | input that shows it | evidently intended | confidence | as-written member | corrected member |
|---|---|---|---|---|---|---|
| src/main/java/edu/virginia/sde/reviews/CourseReviewController.java:65 | the review is built as `Review(0, courseID, userID, ...)`, the user and course ids swapped against the constructor's parameter order | user 1 submits twice for course 2: both submits add a review under the pair (2, 1), so pairs are duplicated and the user's own review is never found | `Review(0, userID, courseID, ...)`, so a second submit edits the first | high, not executed | CourseReview.SwappedSubmitDuplicates | CourseReview.SubmitUpserts |
| src/main/java/edu/virginia/sde/reviews/CourseReviewController.java:69 | `editReview(null, review)` when the user already has a review | user 7 submits twice for course 7 (the swap does not show): the second submit hands the edit a null old review and throws NullPointerException, which the handler does not catch | pass the review found by the lookup, so the edit updates it | medium (the body of `editReview` is not part of the source), not executed | CourseReview.SecondSubmitAsWrittenHitsNullEdit | CourseReview.SubmitTwiceAddsOnce |
| src/main/java/edu/virginia/sde/reviews/CourseSearchController.java:89-90 | `new HashSet<>(filteredCourses)` is meant to remove the duplicates of overlapping criteria, but `Course` does not override `equals` or `hashCode`, so the set compares objects by identity | course (1, "CS", 2150, "Software") searched with subject "CS" and title "soft": each query returns its own new object, so the list shows the course twice | deduplicate by row (or give `Course` value equality), so each course is listed once | medium (that the `getCoursesBy*` queries return new objects per call is an assumption, as their bodies are not part of the source), not executed | CourseSearch.OverlapListedTwice | CourseSearch.DistinctRows |
