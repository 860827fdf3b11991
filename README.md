# Aggie Review: a verified model of the course catalogue pipeline and the review pages

Aggie Review is a course and professor review site for North Carolina A&T
State University. This project models its core in Dafny and proves
properties of that model. The core has two parts.

The import scripts fill the catalogue from JSON listings:

- `import-all-courses` is the strict course importer. Its parser accepts
  `Title - CODE [- TAG]` or a bare `CODE`. It stages one course per
  (code, department) pair and inserts the courses one by one, skipping codes
  the table already holds.
- `import-courses` is the permissive course importer. It takes the first code
  token anywhere in the line. It deduplicates by code alone and upserts in
  batches of 100.
- `import-professors` inserts each department's roster in batches of 100.
- `populate-professor-departments` copies every professor's department into
  the link table, in batches of 100, and counts inserted rows and duplicate
  batches.
- `merge-duplicate-professors` groups professors by exact name and reports
  the duplicated names. It writes nothing.

The client pages hold the interactive logic:

- The review form (`ReviewFormModal`) has its controls, its submit guards,
  the duplicate-review message and the recomputation of the professor's four
  aggregate fields after an insert.
- `MyReviewsPage` deletes a review, recomputes the aggregates (all zero when
  none remain) and removes the review from the list.
- `SignInUpPage` checks the campus e-mail domain, the password length and the
  sign-up name, then calls the authentication service.
- `CourseProfilePage` groups a course's reviews by professor and computes
  each professor's averages and rating colour.
- `CourseSearchPage` runs the course search, redirects on a single hit, and
  groups a course's reviews by the professor they embed.

## How the model is built

- One Dafny module per source file, plus six shared modules:
  - `Base` holds `Option`, `Min` and the store's `Response` (an error, or
    data that may be `null`).
  - `Types` holds the record types (departments, courses, professors,
    reviews) and the department lookup `deptMap.get(name)`.
  - `Text` holds whitespace as JavaScript's `\s` and `trim` define it,
    `toLowerCase`, `endsWith`, `includes` and UTF-16 length.
  - `Seqs` holds deduplication with the first occurrence winning, grouping
    as a `Map` filled with `push`, and the `slice(i, i + 100)` batches.
  - `CourseCode` holds the code token `[A-Z]+\s+\d+[A-Z]*`.
  - `Aggregates` holds the recomputation as integer arithmetic.
- The regular expressions are modelled exactly by maximal runs. In every
  pattern, each quantified class is followed by a character class disjoint
  from it, so backtracking cannot change the match. The lazy name group
  `(.+?)` is the least end at which the rest of the pattern matches.
- The record store, the authentication service and `confirm` are not
  modelled as code. Their answers are parameters:
  - a `Response` (error, or data that may be `null`);
  - an answer per batch, given as a function of the batch index;
  - a flag saying whether a call fails.
- The course table is a multiset of codes for the strict importer and a set
  of codes for the permissive upsert. The model passes the table in and
  returns it.
- A component whose state changes step by step is a class:
  - the review form, the "my reviews" list, the sign-in form, the course
    profile and the course search;
  - each `setFormData({...formData, f: v})` is one method that replaces
    exactly one field;
  - each `async` handler is one method, with the store's answers as
    arguments.
- Each loop in the scripts is a method with a `while`/`for` loop, proved
  equal to a specification function. The properties are proved about that
  function.
- Each aggregate field is an integer:
  - `average_rating` and `difficulty_rating` in tenths;
  - `would_take_again_percent` in whole percent.
- `Math.round(x)` of the exact quotient is `floor(x + 1/2)`. `RoundHalfUp`
  computes that on integers, and `CourseProfilePage.RoundOfQuotient` proves
  that the two agree.

Some behaviour of the code differs from its most obvious reading; the
model follows the code:

- A code token allows any whitespace between letters and digits (`\s+`),
  not a single space.
- The strict parser's name is not always the text before the first `" - "`.
  The lazy group ends at the first position from which the rest of the line
  matches, so a name may contain a dash.
- The strict importer does not insert in batches. It checks and inserts one
  course at a time, and `maybeSingle` fails when two rows share a code, in
  which case the insert is still attempted.
- After a review is inserted, an empty re-read gives `NaN` averages and a
  `NaN` share, which are stored as `null`, with a count of 0. It does not give all zeros.
  After a deletion, an empty or failed re-read does give all zeros.
- `import-professors` and `import-courses` look departments up by exact
  name. Only `import-all-courses` lower-cases both sides.

## Model

| member | source | states |
|---|---|---|
| Text.Trim | scripts/import-all-courses.ts:25 | `trim()` leaves no whitespace at either end and never lengthens the string |
| Text.TrimPadded | scripts/import-all-courses.ts:25 | trimming removes exactly the whitespace padding around a trimmed core |
| Text.TrimIsSlice | scripts/import-courses.ts:24 | the trimmed string is a contiguous piece of the original |
| Text.TrimEmpty | src/pages/SignInUpPage.tsx:34 | a string trims to the empty string exactly when it is all whitespace (`!fullName.trim()`) |
| Text.ToLower | src/pages/SignInUpPage.tsx:17 | `toLowerCase` keeps the length and lower-cases each character in place |
| Text.IndexOf | scripts/populate-professor-departments.ts:53 | the position found holds the pattern, and no earlier position at or after the start does |
| Text.Utf16Length | src/components/ReviewFormModal.tsx:69 | JavaScript's `length` lies between the number of characters and twice that, and equals it exactly when no character is outside the Basic Multilingual Plane |
| Text.Utf16LengthAstral | src/pages/SignInUpPage.tsx:29 | characters outside the Basic Multilingual Plane count two code units each |
| Seqs.DedupBy | scripts/import-courses.ts:61-68 | deduplication keeps every key of the input and never keeps a key twice |
| Seqs.DedupByFirstOccurrences | scripts/import-all-courses.ts:77-80 | the kept elements are exactly the first occurrences of their keys, in input order |
| Seqs.LastIndexOfKey | scripts/import-all-courses.ts:55-57 | a `Map` built from a list returns the last entry with the key, or nothing when no entry has it |
| Seqs.GroupByKeys | scripts/merge-duplicate-professors.ts:20-27 | there is one group per distinct key, in first-seen order, each non-empty and led by the key's first occurrence |
| Seqs.GroupKeysDistinct | scripts/merge-duplicate-professors.ts:22-26 | group keys are pairwise different and are exactly the keys of the input |
| Seqs.GroupByMembers | scripts/merge-duplicate-professors.ts:26 | each group holds exactly the elements with its key, in input order |
| Seqs.GroupByTotal | scripts/merge-duplicate-professors.ts:22-27 | the group sizes add up to the number of elements grouped |
| Seqs.ChunksAreBatches | scripts/import-professors.ts:47-49 | the slices cover the list in order, are non-empty, and all but the last hold exactly 100 |
| Seqs.SizesWhereSplit | scripts/import-courses.ts:86-91 | every element is counted on exactly one side of a batch success/failure split |
| Seqs.FlattenWhereSize | scripts/import-professors.ts:55-59 | the rows of the successful batches number exactly what the counter adds |
| Seqs.FlattenWhereAll | scripts/import-professors.ts:48-60 | when no batch fails, every row is sent |
| Seqs.FlattenWhereMembers | scripts/import-professors.ts:48-60 | rows reaching the table all come from the batches sent |
| Seqs.FilterMapKept | scripts/populate-professor-departments.ts:18-37 | filtering then mapping keeps, in input order and each once, exactly the positions whose element passes the test, each mapped |
| Seqs.KeptSnoc | scripts/populate-professor-departments.ts:18-37 | one more element extends the kept positions by its own exactly when it passes |
| Seqs.KeptMembers | scripts/populate-professor-departments.ts:18-37 | a result made of the kept positions is no longer than the input, holds only mapped passing elements, holds every one of them, and is empty exactly when none passes |
| Seqs.FilterMapSpec | scripts/populate-professor-departments.ts:18-37 | filtering then mapping is that order-preserving sublist, with its membership and emptiness |
| Seqs.FilterMapAll | src/pages/MyReviewsPage.tsx:84 | nothing is dropped exactly when every element passes, and then each element is mapped in place |
| Seqs.FilterMapSnoc | src/pages/MyReviewsPage.tsx:84 | filtering a list with one more element appends that element's image exactly when it passes |
| CourseCode.CodeChars | scripts/import-all-courses.ts:21 | a code starts with a capital, ends in a non-space, and holds only capitals, whitespace and digits |
| CourseCode.CodeIsTrimmed | scripts/import-all-courses.ts:33 | a code has no surrounding whitespace, so its `trim()` changes nothing |
| CourseCode.CodeEnd | scripts/import-courses.ts:18 | a token found at a position is a code that is not followed by a capital letter, and no longer code starts there |
| CourseCode.CodeEndComplete | scripts/import-courses.ts:18 | a code followed by whitespace or the end of the line is the token found there |
| CourseCode.CodeEndNone | scripts/import-courses.ts:18 | when no token starts at a position, no prefix from there is a code |
| CourseCode.NoDigitNoCode | scripts/import-courses.ts:18 | a string without a digit holds no code |
| ImportAllCourses.TagEnd | scripts/import-all-courses.ts:21 | a tag suffix found has the shape `\s+-\s+[A-Z]+` |
| ImportAllCourses.TagEndComplete | scripts/import-all-courses.ts:21 | every tag suffix of the shape `\s+-\s+[A-Z]+`, whatever the lengths of its whitespace runs, is the one found |
| ImportAllCourses.LongFormTail | scripts/import-all-courses.ts:21 | a matched tail is whitespace, a dash, whitespace, a code, an optional tag and trailing whitespace up to the end |
| ImportAllCourses.AfterDash | scripts/import-all-courses.ts:21 | after the dash, a match needs whitespace and then the code group at the end of that whitespace |
| ImportAllCourses.CodeTail | scripts/import-all-courses.ts:21 | a match of the code group holds a code, an optional tag and trailing whitespace up to the end |
| ImportAllCourses.GroupEnd | scripts/import-all-courses.ts:21 | after a code, the group ends at the code or after a tag, and only whitespace follows |
| ImportAllCourses.LongFormTailComplete | scripts/import-all-courses.ts:21 | every tail of the pattern's shape after the name, whatever the lengths of its whitespace runs and with or without a tag, is found, and it is the match found |
| ImportAllCourses.FirstNameEnd | scripts/import-all-courses.ts:21 | the lazy name group ends at the least position from which the long form matches |
| ImportAllCourses.TagStart | scripts/import-all-courses.ts:26 | the tag removed is the leftmost one that runs to the end of the group |
| ImportAllCourses.StripTag | scripts/import-all-courses.ts:26 | removing the tag leaves a prefix of the group |
| ImportAllCourses.StripTagGroup | scripts/import-all-courses.ts:26 | removing the tag from the captured code group gives back the code exactly |
| ImportAllCourses.ShortFormCode | scripts/import-all-courses.ts:30-31 | the short form is a code at the start of the line followed only by whitespace |
| ImportAllCourses.ParseCourseLine | scripts/import-all-courses.ts:20-37 | a line parses exactly when the long or the short form matches; with a long form the name is the text before the least name end, trimmed, and the code is the code token matched after it (tag dropped); with none, a short-form line is both code and name |
| ImportAllCourses.ParseLongForm | scripts/import-all-courses.ts:21-27 | `name - CODE [- TAG]` with a plain name gives that code and the trimmed name |
| ImportAllCourses.ParseLongLine | scripts/import-all-courses.ts:21-27 | a long-form layout whose name group can end no earlier parses to that code and the trimmed name, dashes in the name included |
| ImportAllCourses.ParseDashedNameExample | scripts/import-all-courses.ts:21-27 | `A - B - COMP 1` gives the name `A - B` and the code `COMP 1`: the lazy group ends at the last separator that leaves a code |
| ImportAllCourses.NoDashNoLongForm | scripts/import-all-courses.ts:21-24 | a line without a dash never matches the long form |
| ImportAllCourses.ParseShortForm | scripts/import-all-courses.ts:30-34 | a bare code with trailing whitespace gives that code as both code and name |
| ImportAllCourses.ParseNeedsDigit | scripts/import-all-courses.ts:36 | a line without a digit is rejected |
| ImportAllCourses.ParseExample | scripts/import-all-courses.ts:20-28 | `"Intro to Programming - COMP 163"` gives `COMP 163` and `Intro to Programming` |
| ImportAllCourses.ParseTaggedExample | scripts/import-all-courses.ts:26 | `"Calculus I - MATH 131 - HON"` gives `MATH 131`, with the tag dropped |
| ImportAllCourses.StripQuotes | scripts/import-all-courses.ts:65 | the result starts after a leading quote (else at the start) and ends before a trailing quote that is not that same character (else at the end); the label is unchanged exactly when it has no quote at either end |
| ImportAllCourses.CleanLabel | scripts/import-all-courses.ts:65 | the cleaned label has no surrounding whitespace; its value in each quoting case is given by the four lemmas below |
| ImportAllCourses.CleanQuotedLabel | scripts/import-all-courses.ts:65 | a label wrapped in quotes cleans to its trimmed inside |
| ImportAllCourses.CleanLeadingQuote | scripts/import-all-courses.ts:65 | a label with a quote only at the start (or a lone quote) cleans to the trimmed rest |
| ImportAllCourses.CleanTrailingQuote | scripts/import-all-courses.ts:65 | a label with a quote only at the end cleans to the trimmed rest |
| ImportAllCourses.CleanPlainLabel | scripts/import-all-courses.ts:65 | an unquoted label only loses its surrounding whitespace |
| ImportAllCourses.FindDepartment | scripts/import-all-courses.ts:55-57 | the department found has the same lower-cased name and is the last such department, and none is found when no name matches |
| ImportAllCourses.LineCandidates | scripts/import-all-courses.ts:73-75 | each line gives at most one course, under the listing's label and department |
| ImportAllCourses.ListingCandidates | scripts/import-all-courses.ts:62-71 | a listing's courses are codes whose label resolves to the department they carry |
| ImportAllCourses.Candidates | scripts/import-all-courses.ts:62-87 | every staged candidate is a code whose label resolves to its department |
| ImportAllCourses.StageLines | scripts/import-all-courses.ts:73-86 | the inner loop keeps the seen-key set and the staged list equal to deduplication by key |
| ImportAllCourses.StageCourses | scripts/import-all-courses.ts:59-87 | the staged list is the candidates deduplicated by `code\|department id`, first occurrence winning |
| ImportAllCourses.UniqueKeyInjective | scripts/import-all-courses.ts:77 | different (code, department) pairs give different keys, since a code holds no `\|` |
| ImportAllCourses.StagingKeepsEveryPair | scripts/import-all-courses.ts:77-85 | no (code, department) pair is staged twice, and every candidate pair is staged |
| ImportAllCourses.StagedAreCandidates | scripts/import-all-courses.ts:81-85 | every staged course is one of the parsed candidates |
| ImportAllCourses.InsertStep | scripts/import-all-courses.ts:94-126 | one iteration appends exactly one outcome and keeps the earlier ones |
| ImportAllCourses.RunInserts | scripts/import-all-courses.ts:94-127 | the insertion pass records one outcome per staged course |
| ImportAllCourses.CountWhere | scripts/import-all-courses.ts:116-122 | a counter never exceeds the number of courses processed |
| ImportAllCourses.CountsPartition | scripts/import-all-courses.ts:94-127 | successes plus errors are the courses processed less those passed over (no department, or already stored) |
| ImportAllCourses.FindsExisting | scripts/import-all-courses.ts:98-106 | `maybeSingle` finds an existing row only when its query succeeds and exactly one row has the code; a failed query leaves `existing` empty and the insert goes ahead |
| ImportAllCourses.InsertCourses | scripts/import-all-courses.ts:91-127 | the loop's `successCount`, `errorCount` and table equal those of the insertion pass |
| ImportAllCourses.InsertStepEffect | scripts/import-all-courses.ts:104-114 | only a successful insert adds a row, and it adds exactly that course's code |
| ImportAllCourses.RunInsertsStore | scripts/import-all-courses.ts:108-122 | the table afterwards is the table before plus one row per successful insert |
| ImportAllCourses.RunInsertsNoNewDuplicates | scripts/import-all-courses.ts:98-106 | when no existence query fails, a code held at most once before the import is held at most once after it |
| ImportAllCourses.FailedQueryDuplicates | scripts/import-all-courses.ts:98-126 | when the existence query for a code already held once fails and the insert succeeds, the code is held twice |
| ImportAllCourses.RunInsertsOutcome | scripts/import-all-courses.ts:95-114 | a course has no department exactly when its label is not in the map, and an inserted row carries its code, name and the department id found |
| ImportAllCourses.StagedCoursesResolve | scripts/import-all-courses.ts:95-96 | the second lookup always finds the department a staged course was staged under |
| ImportAllCourses.ImportCourses | scripts/import-all-courses.ts:46-131 | no department list means no report and an unchanged table; otherwise the report counts the successes and the failures of inserting the staged courses, and success + error equals the staged count less the courses passed over, so never more than it |
| ImportCourses.FirstCodeAt | scripts/import-courses.ts:18 | the token found is the leftmost code start at or after the position |
| ImportCourses.NoCodeAnywhere | scripts/import-courses.ts:19 | when no token is found, no piece of the line is a code |
| ImportCourses.ExtractCourseCode | scripts/import-courses.ts:17-20 | the result is the leftmost-longest code in the line, as a regular-expression search finds it, and there is none exactly when no piece of the line is a code |
| ImportCourses.LeftmostLongestUnique | scripts/import-courses.ts:18 | a line has at most one leftmost-longest code match |
| ImportCourses.FirstCodeIs | scripts/import-courses.ts:18 | the code extracted is the token at `n` when no token starts before it |
| ImportCourses.ExtractCourseName | scripts/import-courses.ts:22-25 | the name is the trimmed text before the first `" - "`, or the trimmed line when there is none |
| ImportCourses.NameBeforeSeparator | scripts/import-courses.ts:23-24 | when no space in the name precedes a dash, the name is the trimmed text before the `" - "` after it |
| ImportCourses.HyphenatedNameExample | scripts/import-courses.ts:23-24 | `Pre-Calculus - MATH 110` gives the name `Pre-Calculus` |
| ImportCourses.NameWithoutSeparator | scripts/import-courses.ts:23-24 | a line without a dash is its own name, trimmed |
| ImportCourses.FirstCodeAfterPlainPrefix | scripts/import-courses.ts:18 | after a digit-free prefix not ending in a capital, the first code is the one right after the prefix |
| ImportCourses.PermissiveCodeOfPlainLine | scripts/import-courses.ts:17-20 | on `name - CODE ...` with a digit-free name, the code read is `CODE` |
| ImportCourses.PermissiveNameOfPlainLine | scripts/import-courses.ts:22-25 | on `name - ...`, where no space in the name precedes a dash, the name read is the trimmed `name` |
| ImportCourses.ParsersAgree | scripts/import-courses.ts:17-25 | on a plain long-form line both importers read the same code and the same name |
| ImportCourses.ParsersDisagree | scripts/import-courses.ts:17-25 | on `"Topics in COMP 101 - COMP 102"` the strict importer reads `COMP 102` and the permissive one `COMP 101`, with the same name |
| ImportCourses.StrictReadsLastCode | scripts/import-all-courses.ts:20-28 | the strict parser reads `COMP 102` from `"Topics in COMP 101 - COMP 102"` |
| ImportCourses.PermissiveCodeExample | scripts/import-courses.ts:17-20 | the permissive parser reads `COMP 101` from the same line |
| ImportCourses.PermissiveNameExample | scripts/import-courses.ts:22-25 | the permissive parser reads the name `Topics in COMP 101` from it |
| ImportCourses.RemoveDoubleQuotes | scripts/import-courses.ts:43 | removing double quotes leaves none and changes nothing in a quote-free label |
| ImportCourses.RemoveDoubleQuotesAppend | scripts/import-courses.ts:43 | the removal works piece by piece over a concatenation |
| ImportCourses.RemoveDoubleQuotesChar | scripts/import-courses.ts:43 | on one character, a double quote disappears and anything else stays; with the row above this fixes the result on every label |
| ImportCourses.CleanDepartment | scripts/import-courses.ts:43 | the cleaned label has no quote and no surrounding whitespace |
| ImportCourses.CleanDepartmentDropsQuote | scripts/import-courses.ts:43 | a double quote anywhere in the label makes no difference to the cleaned label |
| ImportCourses.CleanDepartmentQuoted | scripts/import-courses.ts:43 | a quoted label with no quote inside cleans to its trimmed inside |
| ImportCourses.LineRow | scripts/import-courses.ts:54-59 | a line gives at most one row, which is a code under the entry's department |
| ImportCourses.EntryRows | scripts/import-courses.ts:42-49 | an entry's rows all carry a department id that is present |
| ImportCourses.CatalogRows | scripts/import-courses.ts:42-70 | every collected row is a code with a present department id |
| ImportCourses.CollectLines | scripts/import-courses.ts:53-69 | the inner loop keeps the map's keys and values equal to deduplication by code |
| ImportCourses.CollectCourses | scripts/import-courses.ts:40-74 | `coursesToInsert` is the rows deduplicated by code, first one seen winning |
| ImportCourses.CollectedOncePerCode | scripts/import-courses.ts:61-68 | no code is collected twice and every code seen is collected |
| ImportCourses.UpsertBatches | scripts/import-courses.ts:75-92 | `imported` counts the successful batches, `skipped` the failed ones, and the table gains the codes of the successful batches |
| ImportCourses.UpsertCountsEveryCourse | scripts/import-courses.ts:86-91 | `imported + skipped` is the number of collected courses |
| ImportCourses.UpsertAllSucceed | scripts/import-courses.ts:82-84 | when no batch fails, the table ends up holding every collected code |
| ImportCourses.ImportCourses | scripts/import-courses.ts:30-97 | a department error means no report and an unchanged table; otherwise the total is the number of unique codes, split exactly into imported and skipped |
| Types.DepartmentId | scripts/import-professors.ts:21-29 | the lookup by exact, case-sensitive name: the last department with that name gives its id, or nothing when that id is empty; a name no department has gives nothing |
| ImportProfessors.ProfessorRecords | scripts/import-professors.ts:37-45 | one record per name, in order, with the department id, the title `Professor` and zero aggregates |
| ImportProfessors.InsertBatches | scripts/import-professors.ts:47-60 | the counter is the size of the successful batches and exactly their rows reach the table |
| ImportProfessors.ImportProfessors | scripts/import-professors.ts:12-65 | a department error means no report and no rows; otherwise `totalImported` counts the rows inserted and `skipped` the names of unknown departments |
| ImportProfessors.RosterAccounting | scripts/import-professors.ts:26-60 | every roster name is imported, skipped, or lost in a failed batch, and exactly one of the three |
| ImportProfessors.InsertedAreFresh | scripts/import-professors.ts:37-45 | every inserted professor is fresh and carries the id of a known department |
| ImportProfessors.Names | scripts/import-professors.ts:38 | one name per record |
| ImportProfessors.NamesOfRecords | scripts/import-professors.ts:37-38 | the records built keep the roster's names in order |
| ImportProfessors.AllNames | scripts/import-professors.ts:26 | the roster's names number exactly the roster count |
| ImportProfessors.EveryNameImported | scripts/import-professors.ts:26-60 | with every department known and no failing batch, every name is imported in roster order and none is skipped |
| PopulateProfessorDepartments.Links | scripts/populate-professor-departments.ts:16-37 | the links are those of the professors with a department, one per such professor and in table order; each professor with a department gives its link, each link comes from one, and there are none exactly when no professor has a department |
| PopulateProfessorDepartments.TallyOf | scripts/populate-professor-departments.ts:44-63 | with every batch accepted there are no duplicates or failures; with every batch refused nothing is inserted; without a duplicate message no duplicates |
| PopulateProfessorDepartments.IsDuplicateError | scripts/populate-professor-departments.ts:52-53 | an error answer whose message includes `duplicate` |
| PopulateProfessorDepartments.DuplicateAnywhere | scripts/populate-professor-departments.ts:53 | a message with `duplicate` anywhere in it is a duplicate error |
| PopulateProfessorDepartments.ReturnedCount | scripts/populate-professor-departments.ts:60 | `data?.length \|\| 0` is the number of rows returned by a successful answer, and zero otherwise |
| PopulateProfessorDepartments.TallyOfSnoc | scripts/populate-professor-departments.ts:44-62 | a further batch adds its size to the duplicates on a duplicate error and its returned row count to the inserted on success |
| PopulateProfessorDepartments.InsertLinks | scripts/populate-professor-departments.ts:40-63 | the loop's `totalInserted` and `duplicates` equal the tally of the batch answers |
| PopulateProfessorDepartments.PopulateProfessorDepartments | scripts/populate-professor-departments.ts:16-67 | a query error, `null` data or no linked professor gives no report; otherwise the report is the tally of the batches |
| PopulateProfessorDepartments.TallyAccounting | scripts/populate-professor-departments.ts:52-62 | when no answer returns more rows than its batch, inserted, duplicate and failed rows together never exceed the links, and they equal them when each answer returns its batch exactly |
| PopulateProfessorDepartments.PopulateCountsBounded | scripts/populate-professor-departments.ts:44-63 | the two counters together never exceed the number of linked professors |
| MergeDuplicateProfessors.GroupByName | scripts/merge-duplicate-professors.ts:20-27 | the loop builds the grouping of the rows by name |
| MergeDuplicateProfessors.Duplicates | scripts/merge-duplicate-professors.ts:29 | the duplicates are exactly the groups of more than one row |
| MergeDuplicateProfessors.DuplicatesInOrder | scripts/merge-duplicate-professors.ts:29-31 | the duplicates are the groups of more than one row, each once, in the map's order, so `duplicates.length` is their number |
| MergeDuplicateProfessors.Distinct | scripts/merge-duplicate-professors.ts:37-38 | `filter((v, i, a) => a.indexOf(v) === i)` keeps the same values, each once, at their first positions and in input order |
| MergeDuplicateProfessors.DepartmentName | scripts/merge-duplicate-professors.ts:37 | the department's name when it has a non-empty one, otherwise `Unknown` |
| MergeDuplicateProfessors.DepartmentCode | scripts/merge-duplicate-professors.ts:38 | the department's code when it has a non-empty one, otherwise `UNKN` |
| MergeDuplicateProfessors.DepartmentNames | scripts/merge-duplicate-professors.ts:37 | one name per record, in order, each as `DepartmentName` gives it |
| MergeDuplicateProfessors.DepartmentCodes | scripts/merge-duplicate-professors.ts:38 | one code per record, in order, each as `DepartmentCode` gives it |
| MergeDuplicateProfessors.Ids | scripts/merge-duplicate-professors.ts:43 | one id per row, in order |
| MergeDuplicateProfessors.EntryOf | scripts/merge-duplicate-professors.ts:34-46 | the entry carries the name, the group size and the first record as kept; the kept id and the merge ids are all the group's ids, first kept; departments and codes are the first occurrences of the records' names and codes, in order and each once, with `Unknown`/`UNKN` for missing ones; with distinct ids the kept one is not merged |
| MergeDuplicateProfessors.MergeDuplicateProfessors | scripts/merge-duplicate-professors.ts:11-50 | a query error gives no report; otherwise the report is about the rows' grouping by name (none when `null`) |
| MergeDuplicateProfessors.ExtraRecords | scripts/merge-duplicate-professors.ts:32 | the records to merge are at most all records, and at least all records less one per group |
| MergeDuplicateProfessors.ReportOf | scripts/merge-duplicate-professors.ts:29-46 | one entry per duplicated name, in order, each the entry of its group, with more than one record and at least one id to merge; the count is their number, and the records to merge are all records less one per name |
| MergeDuplicateProfessors.Entries | scripts/merge-duplicate-professors.ts:34-46 | one entry per duplicated group, in order, each naming its group and merging at least one id |
| MergeDuplicateProfessors.ExtraRecordsOfDuplicates | scripts/merge-duplicate-professors.ts:32 | over non-empty groups, the records to merge are all records less one per group |
| MergeDuplicateProfessors.ExtraRecordsCount | scripts/merge-duplicate-professors.ts:32 | the records to merge are the rows less the number of distinct names |
| MergeDuplicateProfessors.DuplicateIffRepeated | scripts/merge-duplicate-professors.ts:20-29 | a name is reported exactly when more than one row has it, and its group holds exactly those rows |
| Aggregates.RoundHalfUp | src/components/ReviewFormModal.tsx:107-109 | the result is the integer nearest the quotient, ties rounded up |
| Aggregates.RoundHalfUpBetween | src/components/ReviewFormModal.tsx:107-109 | a quotient between two integers rounds into them |
| Aggregates.SumOfBetween | src/components/ReviewFormModal.tsx:99-101 | a sum of values in `[lo, hi]` lies between count times `lo` and count times `hi` |
| Aggregates.AggregateBounds | src/components/ReviewFormModal.tsx:99-111 | with ratings and difficulties 1 to 5, the stored averages lie in 1.0 to 5.0, the share in 0 to 100, and the count is the number of reviews |
| Aggregates.SumOfAppend | src/components/ReviewFormModal.tsx:99 | the `reduce` sum of two lists is the sum of their sums |
| Aggregates.SumOfPermutation | src/components/ReviewFormModal.tsx:99-101 | a sum over reviews does not depend on their order |
| Aggregates.SumOf | src/components/ReviewFormModal.tsx:99-101 | the `reduce` sum; its properties are the rows `SumOfBetween`, `SumOfAppend` and `SumOfPermutation` |
| Aggregates.MeanAggregates | src/components/ReviewFormModal.tsx:99-110 | each average (in tenths) and the share (in percent) is the nearest integer to the exact mean, halves up, and the count is the number of reviews |
| Aggregates.MeanAggregatesOrderFree | src/components/ReviewFormModal.tsx:93-111 | the recomputed aggregates depend only on which reviews there are, not on the query's order |
| Aggregates.MeanAggregatesExample | src/components/ReviewFormModal.tsx:99-110 | ratings 4, 5, 3, difficulties 2, 3, 2 and two of three yes give 4.0, 2.3, 67 % and 3 |
| ReviewFormModal.SubmitError | src/components/ReviewFormModal.tsx:64-72 | the submit goes ahead exactly when the user is signed in and the form is complete; otherwise the sign-in message comes first, then the required-fields message |
| ReviewFormModal.InitialForm | src/components/ReviewFormModal.tsx:16-26 | the empty form belongs to the professor and is incomplete |
| ReviewFormModal.IsComplete | src/components/ReviewFormModal.tsx:69 | a rating, a difficulty, a course and a comment of at least 20 UTF-16 units |
| ReviewFormModal.InitialFormRejected | src/components/ReviewFormModal.tsx:16-26 | the untouched form is always refused |
| ReviewFormModal.CoursesIn | src/components/ReviewFormModal.tsx:47-53 | the courses offered are exactly those of the professor's departments |
| ReviewFormModal.AfterInsertUpdate | src/components/ReviewFormModal.tsx:93-113 | no update exactly when the re-read fails; otherwise the aggregates recomputed from the reviews read, or null averages with a zero count when none is read |
| ReviewFormModal.ReviewForm.constructor | src/components/ReviewFormModal.tsx:15-30 | the form opens empty, for its professor, with no courses and no error |
| ReviewFormModal.ReviewForm.SetCourse | src/components/ReviewFormModal.tsx:142 | only the course field changes |
| ReviewFormModal.ReviewForm.SetRating | src/components/ReviewFormModal.tsx:164 | only the rating changes, to the star chosen |
| ReviewFormModal.ReviewForm.SetDifficulty | src/components/ReviewFormModal.tsx:195 | only the difficulty changes, to the level chosen |
| ReviewFormModal.ReviewForm.SetWouldTakeAgain | src/components/ReviewFormModal.tsx:218-229 | only the yes/no answer changes |
| ReviewFormModal.ReviewForm.SetGrade | src/components/ReviewFormModal.tsx:247 | only the grade changes |
| ReviewFormModal.ReviewForm.SetForCredit | src/components/ReviewFormModal.tsx:270 | only the for-credit box changes |
| ReviewFormModal.ReviewForm.SetAttendanceMandatory | src/components/ReviewFormModal.tsx:279 | only the attendance box changes |
| ReviewFormModal.ReviewForm.SetComment | src/components/ReviewFormModal.tsx:292 | only the comment changes |
| ReviewFormModal.ReviewForm.LoadCourses | src/components/ReviewFormModal.tsx:36-58 | no linked department empties the course list; otherwise a successful query sets the department's courses and a failed one keeps the list |
| ReviewFormModal.ReviewForm.HandleSubmit | src/components/ReviewFormModal.tsx:60-117 | a refused form writes nothing and shows its message; a failed insert shows the duplicate or the generic message and updates nothing; a successful one writes the recomputed aggregates and closes |
| ReviewFormModal.FillAndSubmit | src/components/ReviewFormModal.tsx:60-81 | a signed-in user who picks a course, a rating, a difficulty and a long enough comment gets exactly that review inserted |
| MyReviewsPage.WithoutReview | src/pages/MyReviewsPage.tsx:84 | the list keeps exactly the reviews with another id, in their order and each once, and is unchanged when no review has the id |
| MyReviewsPage.OtherThanKept | src/pages/MyReviewsPage.tsx:84 | the filter keeps a review exactly when it has another id |
| MyReviewsPage.OtherThanNoneDropped | src/pages/MyReviewsPage.tsx:84 | the filter drops nothing when no review has the id |
| MyReviewsPage.AfterDeleteUpdate | src/pages/MyReviewsPage.tsx:57-81 | the aggregates are always written: those recomputed from the remaining reviews, or all zero exactly when the re-read fails or finds no review |
| MyReviewsPage.ReviewsPage.constructor | src/pages/MyReviewsPage.tsx:33-36 | the page holds the loaded reviews and deletes nothing |
| MyReviewsPage.ReviewsPage.BeginDelete | src/pages/MyReviewsPage.tsx:44 | the review is marked as being deleted and the list is kept |
| MyReviewsPage.ReviewsPage.FinishDelete | src/pages/MyReviewsPage.tsx:46-87 | a failed delete keeps the list and updates nothing; a successful one writes the recomputed aggregates and drops the review; the mark is cleared either way |
| MyReviewsPage.ReviewsPage.HandleDelete | src/pages/MyReviewsPage.tsx:39-88 | without confirmation nothing changes; with it the delete runs as above |
| MyReviewsPage.WithoutReviewIdempotent | src/pages/MyReviewsPage.tsx:84 | removing a review twice removes nothing more |
| MyReviewsPage.AfterDeleteOrderFree | src/pages/MyReviewsPage.tsx:52-81 | the aggregates written after a delete do not depend on the order of the remaining reviews |
| SignInUpPage.ValidateEmail | src/pages/SignInUpPage.tsx:16-18 | an address is accepted exactly when its last characters, lower-cased, are `@aggies.ncat.edu` |
| SignInUpPage.LowerSuffix | src/pages/SignInUpPage.tsx:17 | `toLowerCase().endsWith(s)` compares the last characters, lower-cased, with `s` |
| SignInUpPage.DomainIsLowerCase | src/pages/SignInUpPage.tsx:17 | the domain is already in lower case |
| SignInUpPage.AnyLocalPartAccepted | src/pages/SignInUpPage.tsx:16-18 | any text followed by the domain is accepted; the part before it is not checked |
| SignInUpPage.ValidateEmailIgnoresCase | src/pages/SignInUpPage.tsx:17 | the check ignores the case of the address |
| SignInUpPage.GuardError | src/pages/SignInUpPage.tsx:24-37 | the submit goes ahead exactly when the address, the password length and (signing up) the name pass; otherwise the message is that of the first failing guard |
| SignInUpPage.SignInIgnoresName | src/pages/SignInUpPage.tsx:34 | signing in, the name field plays no part |
| SignInUpPage.ShortBmpPasswordRefused | src/pages/SignInUpPage.tsx:29-32 | a password of fewer than six characters, all in the Basic Multilingual Plane, is refused |
| SignInUpPage.ThreeAstralCharactersPass | src/pages/SignInUpPage.tsx:29-32 | three characters outside the Basic Multilingual Plane have length six and pass the length guard |
| SignInUpPage.SignInForm.constructor | src/pages/SignInUpPage.tsx:6-12 | the form opens in sign-in mode with empty fields and no error |
| SignInUpPage.SignInForm.ChooseMode | src/pages/SignInUpPage.tsx:79-96 | switching mode clears the error and keeps the fields |
| SignInUpPage.SignInForm.SetFields | src/pages/SignInUpPage.tsx:118-156 | only the three fields change |
| SignInUpPage.SignInForm.HandleSubmit | src/pages/SignInUpPage.tsx:20-62 | a failed guard shows its message and calls nothing; otherwise the right service is called, a failed sign-in shows the generic message, a failed sign-up the service's message, an exception the unexpected-error message, and success goes home |
| CourseProfilePage.GroupReviews | src/pages/CourseProfilePage.tsx:47-60 | the `reduce` builds the grouping of the reviews by professor id |
| CourseProfilePage.StatsOf | src/pages/CourseProfilePage.tsx:62-68 | a block keeps its reviews and the professor of its first review |
| CourseProfilePage.ComputeStats | src/pages/CourseProfilePage.tsx:62-68 | the `forEach` gives each block its statistics, in block order |
| CourseProfilePage.ProfessorBlocks | src/pages/CourseProfilePage.tsx:47-68 | one block per professor, each holding exactly that professor's reviews with their statistics |
| CourseProfilePage.BlocksPartitionReviews | src/pages/CourseProfilePage.tsx:47-60 | the blocks are non-empty, have distinct professors, hold exactly each professor's reviews, and together hold every review |
| CourseProfilePage.StatsBounds | src/pages/CourseProfilePage.tsx:62-68 | with ratings and difficulties 1 to 5, the averages lie in 1 to 5 and the share in 0 to 100 |
| CourseProfilePage.Round | src/pages/CourseProfilePage.tsx:168 | `Math.round` lands within one half of its argument, halves up |
| CourseProfilePage.DisplayedShareIsStored | src/pages/CourseProfilePage.tsx:168 | the share the page rounds for display equals the one stored on the professor |
| CourseProfilePage.RoundOfQuotient | src/pages/CourseProfilePage.tsx:168 | `Math.round` of an exact quotient agrees with integer half-up rounding |
| CourseProfilePage.GetRatingColor | src/pages/CourseProfilePage.tsx:70-74 | green exactly from 4.5, red exactly below 3.5, gold between |
| CourseProfilePage.RatingColorMonotone | src/pages/CourseProfilePage.tsx:70-74 | a higher average never gets a lower colour band |
| CourseProfilePage.CourseProfile.constructor | src/pages/CourseProfilePage.tsx:8-13 | the page opens loading, with no course and no reviews |
| CourseProfilePage.CourseProfile.LoadCourseAndReviews | src/pages/CourseProfilePage.tsx:21-45 | a missing course keeps the state; a found one is shown, with its reviews when their query succeeds; loading ends either way |
| CourseSearchPage.WithProfessor | src/pages/CourseSearchPage.tsx:59 | exactly the reviews that embed a professor are kept, in order and each once, and all are kept exactly when all embed one |
| CourseSearchPage.AddReview | src/pages/CourseSearchPage.tsx:60-67 | one review is pushed into its professor's entry, which is created when missing with a copy of the review's professor; every entry keeps the professor of its first review, keyed by that professor's id |
| CourseSearchPage.MapValues | src/pages/CourseSearchPage.tsx:71 | `Array.from(professorMap.values())` lists each professor with their reviews, in entry order |
| CourseSearchPage.LoadCourseProfessors | src/pages/CourseSearchPage.tsx:49-73 | one entry per professor embedded in the reviews, each holding exactly that professor's reviews and showing the professor its first review embeds, whose id is the entry's key |
| CourseSearchPage.GroupedReviewCount | src/pages/CourseSearchPage.tsx:56-71 | the entries hold at most all reviews, exactly all of them when every review embeds its professor, and each holds exactly its professor's reviews |
| CourseSearchPage.ReviewLabel | src/pages/CourseSearchPage.tsx:171 | the word is `review` exactly for a count of one |
| CourseSearchPage.CourseSearch.constructor | src/pages/CourseSearchPage.tsx:15-18 | the page opens loading, with no courses and no selected course |
| CourseSearchPage.CourseSearch.SearchCourses | src/pages/CourseSearchPage.tsx:32-47 | a successful search shows its courses and redirects exactly when there is one, to that course's code; a failed one keeps the list |

## Left out

- The record store (Supabase), the authentication service, the network and
  `confirm` are not modelled as code. Their answers are parameters: a
  response, a per-batch or per-call answer, or a failure flag.
- Reading and parsing the JSON files is left out. The catalogue and the
  rosters are given as sequences of entries in `Object.entries` order.
- A listing whose value is not an array is skipped by `import-all-courses`
  (an entry of `None`). The other two scripts assume arrays, and the model
  gives them only string lines.
- Console logging is left out. This covers the progress lines, the first ten
  error messages, the per-batch messages and the final counts, except where
  they form the report.
- The final `count` query of `populate-professor-departments` only logs, and
  is left out.
- The aggregates use exact arithmetic, not IEEE doubles. `Math.round` of a
  double may differ from exact half-up rounding when a quotient times 10 is
  not representable. The percentage is `(count / n) * 100` in doubles.
  `CourseProfilePage.StatsOf` uses exact `real` arithmetic.
- `toLowerCase` is modelled on the ASCII letters only. Other letters keep
  their case.
- Concurrency is left out: two recomputations of the same professor race,
  and the last write wins.
- The rendering, hover state, loading spinners, `encodeURIComponent` of the
  redirect, `toFixed(1)` formatting and navigation away from the pages are
  left out.
- CourseProfilePage.GroupReviews: the source groups in a plain object and
  reads it back with `Object.values`, which lists integer-like keys first.
  The model keeps first-seen order, which is what the page shows because
  professor ids are UUIDs, never integer-like.
- Ordering by `code` (`loadCourses`, the course search) and by `created_at`
  is done by the store and is left out. The model keeps the order the store
  returns.
- The search's `ilike` matching happens in the store. `SearchCourses` takes
  its answer as a parameter.
- `CourseSearchPage.LoadCourseProfessors` is modelled although the page
  never calls it: `selectedCourse` is never set, which
  `CourseSearchPage.CourseSearch.constructor` states.
- ImportAllCourses.ImportCourses: the model treats a department list with an
  `error` and no data as `None`. The script checks only `!departments`.
- The other pages and components, and the authentication context, are not
  part of this model: ProfessorSearchPage, AccountPage, LandingPage, NavBar,
  SearchBar and App.
