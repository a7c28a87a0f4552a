# CourseBuddy dashboard logic in Dafny

CourseBuddy is a Streamlit page (`Siri.py`). Students use it to browse, filter and enroll in
courses, and administrators use it to curate the course catalogue. Almost all of the page
draws widgets or calls an external HTTP API. This project models the three pieces of pure
logic in the page and proves their properties:

- **Course filter** (`filter_courses`). A course is dropped as soon as one *active* criterion
  fails. The criteria are: the id is a substring of the course id; the title and the category
  are case-insensitive substrings; the difficulty is equal unless the filter is `"All"`; the
  rating is at least the minimum unless the minimum is zero. Empty strings and a zero minimum
  are inactive, following Python truthiness. Module `Catalog`.
- **Enrollment session** (`enroll_course` and the session defaults). The session holds the
  set of enrolled course ids, an append-only history and a "recently enrolled" slot.
  Module `Enrollment`.
- **Admin course management**. Deleting a course by id keeps every row with another id, in
  file order. The admin's chain of DataFrame masks narrows the rows shown. A CSV table is
  modelled as a sequence of course rows. Module `Admin`.

Two shared modules support these. `Text` holds ASCII lower-casing and Python's `needle in hay`
on strings. `Seqs` holds `Keep`, the order-preserving selection that both the append loop
and a boolean mask perform, together with a subsequence predicate.

Ratings are `real`. The price written into a history entry comes from `random.uniform`, so
it is a parameter of `Enrollment.Enroll`.

## Model

| member | source | states |
|---|---|---|
| `Text.Contains` | Siri.py:107 | The empty needle is found in every string, and a needle longer than the hay is never found |
| `Text.ContainsIff` | Siri.py:107-109 | The `in` test on strings holds exactly when the needle occurs as a contiguous block at some position of the hay |
| `Text.Lower` | Siri.py:108-109 | `.lower()` keeps the length, turns each upper-case ASCII letter into its lower-case partner, leaves no upper-case letter, and leaves every other character unchanged |
| `Text.LowerIdempotent` | Siri.py:108-109 | Lower-casing an already lower-cased string changes nothing |
| `Text.LowerCaseBlind` | Siri.py:108-109 | Two strings lower-case to the same string exactly when they differ only in the ASCII case of their letters |
| `Text.MatchCaseBlind` | Siri.py:108-109 | A case-insensitive match gives the same answer when either argument is replaced by a string that differs only in letter case |
| `Text.ContainsIgnoringCaseOfLowered` | Siri.py:108-109 | Lower-casing either argument before a case-insensitive match changes nothing |
| `Seqs.Keep` | Siri.py:105-114 | Selecting from a list never makes it longer, and keeps exactly the elements that pass |
| `Seqs.KeepCounts` | Siri.py:105-114 | Selection keeps every occurrence of a passing element and no occurrence of any other |
| `Seqs.KeepIsSubsequence` | Siri.py:105-114 | Selection only deletes: there are strictly increasing positions of the input that spell out the result |
| `Seqs.KeepAll` | Siri.py:105-114 | When every element passes, selection returns its input |
| `Seqs.KeepKeep` | Siri.py:376-387 | Applying two masks in a row is the same as applying one mask built from their conjunction |
| `Catalog.FilterCourses` | Siri.py:104-114 | The result is a subsequence of the courses. A course is in it exactly when it meets every active criterion, and it appears as often as in the input |
| `Catalog.FilterCoursesLoop` | Siri.py:105-114 | The skip-or-append loop, as written, computes exactly `FilterCourses` |
| `Catalog.FilterWithoutCriteria` | Siri.py:107-111 | With empty id, title and category, difficulty "All" and minimum rating 0, the output equals the input |
| `Catalog.FilterTwice` | Siri.py:107-113 | Filtering an already filtered list with the same criteria changes nothing |
| `Enrollment.Init` | Siri.py:19-33 | The initial session has an empty history and satisfies the session invariant |
| `Enrollment.Enroll` | Siri.py:86-101 | A new id appends one entry holding that id, the title "Course <id>", the rating "N/A", the drawn price and the payment method; joins the enrolled set and becomes the recent course, and nothing earlier in the history changes. An id already enrolled leaves the session unchanged |
| `Enrollment.EnrollPreservesValid` | Siri.py:86-97 | After enrolling, the enrolled set is still the set of history ids, and the history still has no duplicate id. Every entry keeps its generated title and rating, and the recent slot still names the last entry |
| `Enrollment.EnrollTwice` | Siri.py:87-101 | Enrolling twice in the same course is the same as enrolling once |
| `Enrollment.RunPreservesValid` | Siri.py:86-97 | Any sequence of enrollments preserves the session invariant |
| `Enrollment.RunExtends` | Siri.py:86-97 | The history is append-only across any sequence of enrollments, and the enrolled set grows by exactly the requested ids |
| `Enrollment.FromInit` | Siri.py:86-97 | Starting from the initial session, after any sequence of enrollments the enrolled set equals the history's ids and the requested ids, and no id appears twice in the history |
| `Admin.DeleteCourse` | Siri.py:399 | No row with the deleted id remains. Every row with another id keeps its multiplicity, and the result is a subsequence of the table |
| `Admin.DeleteAbsent` | Siri.py:399 | Deleting an id that no row carries leaves the table unchanged |
| `Admin.DeleteTwice` | Siri.py:399 | Deleting the same id twice is the same as deleting it once |
| `Admin.DeleteRemovesMatching` | Siri.py:399 | The rows left and the rows carrying the id together account for every row of the table |
| `Admin.AdminFilter` | Siri.py:376-387 | A row is shown exactly when it meets every active admin criterion |
| `Admin.MaskIfIsKeep` | Siri.py:378-387 | A mask stage guarded by an `if` on its input is one selection by "input inactive, or the mask holds": the mask itself when the input is active, every row otherwise |
| `Admin.AdminFilterIsOneMask` | Siri.py:376-387 | The five-stage mask chain equals one selection by the conjunction of the active criteria, in file order with multiplicities |
| `Admin.ShownRowsAreDeleted` | Siri.py:378-399 | With a course id entered, every row the admin view shows is a table row that the delete then removes |

## Left out

- The Streamlit page is not modelled: widgets, layout, `session_state` plumbing, `experimental_rerun`, and the success, warning and balloon messages. This is rendering, not logic.
- Every HTTP call is left out: registration, login, admin login, user lookup, `/filter_courses` and `/hybrid_recommend`. These run against an external service whose code is not part of this model.
- `calculate_price` is not modelled, because it draws a random number and rounds a float. The price is a caller-supplied `real` in `Enrollment.Enroll`.
- Reading, writing and downloading CSV files is not modelled, because it is file I/O. This includes `load_courses`, `load_csv_data` with its first-ten-rows preview, the download buttons, and writing the table back after a delete.
- The guard on the delete button (`course_id` non-empty, line 397) is not modelled, because it is a UI condition. `Admin.DeleteCourse` models the row filter of line 399 on its own.
- Parse failures of `float(course['rating'])` are not modelled, because ratings are already numeric. NaN ratings are excluded too.
- Course ids are assumed to be strings. A numeric `course_id` column in pandas would compare unequal to the typed text; that is library behaviour.
- Text.Lower: lower-cases ASCII letters only. Python's `str.lower` also maps non-ASCII letters, and that Unicode case table is not modelled.
- Admin.AdminFilter: this is an approximation. `str.contains` treats the title as a regular expression; it is modelled as a plain case-insensitive substring. The rating column is assumed already numeric.
