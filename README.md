# yamdb: the CSV importer and the auth/nested-lookup decisions, in Dafny

This project models two parts of the yamdb review-aggregator API and proves
properties of them.

- **The CSV bulk importer** (`import_csv_data` management command), in
  `csv_import.dfy`. It covers three steps. First, the header row is
  remapped: the foreign-key aliases `category` and `author` become
  `category_id` and `author_id`. Second, each file's rows are inserted one
  by one; a failing insert is counted and reported, and the load goes on.
  Third, the command walks its fixed file-to-model table in dependency
  order and skips files that are missing or cannot be read. The code is
  imperative, so the model is too. `RemapHeaders`, `LoadCsv` and `Handle`
  are loops. Each is proved equal to a specification function (`RemapAll`,
  `Load`, `Run`), and the lemmas state what those functions guarantee. The
  database is the `Store` class. Its insert succeeds or fails according to
  an abstract constraint, `admits`.
- **Signup and token issuance** (`UserRegistrationView.post`,
  `TokenObtainView.post`), in `auth.dfy`. `UserStore` is a class holding
  the user table, keyed by username, and the confirmation mails sent. Its
  invariant is the unique constraint on username and email. `Signup` is
  get-or-create on the exact (username, email) pair. When that insert
  breaks a unique constraint, it reports the email collision before the
  username one. `ObtainToken` first looks the user up, and only then
  checks the confirmation code. The code generator is a pair of functions
  fixed for the store: `makeToken` and `checkToken`.
- **The nested review and comment endpoints** (`ReviewViewSet`,
  `CommentViewSet`), in `nested.dfy`. These are pure functions over a
  `Catalog` value: the permission switch for `create`, the title scoping
  of reviews, and the (review, title) scoping of comments, for both
  listing and creation.

A few behaviours of the code are easy to misread. The model keeps each one
as written:

- Issuing a token does not consume the confirmation code.
  `TokenObtainView.post` (api_yamdb/api/views.py:84-96) reads the user table
  and changes nothing. So `ObtainToken` modifies nothing, and the same code
  is accepted again for as long as `checkToken` accepts it.
- A signup conflict says which field collided. The comment at
  api_yamdb/api/views.py:59-65 argues that hiding it would not help. The
  code raises two different validation errors, and checks the email first
  (api_yamdb/api/views.py:66-74). The model keeps both outcomes,
  `EmailExists` and `UsernameExists`.
- Both collisions are validation errors (HTTP 400). The model names only
  which collision happened.
- An empty CSV file has no header row. Reading it
  (import_csv_data.py:27) raises `StopIteration`, and the catch-all
  handler (import_csv_data.py:64-65) reports that as a read error. The
  model reads an empty file as `ReadFailed`.
- The CSV reader skips blank records. `KeyRows` drops them.

## Model

| member | source | states |
|---|---|---|
| `CsvImport.RemapHeader` | api_yamdb/reviews/management/commands/import_csv_data.py:30-33 | a remapped header is never an alias key, and is either the header itself or the column its alias maps to |
| `CsvImport.RemapAll` | api_yamdb/reviews/management/commands/import_csv_data.py:28-33 | the remapped header row has exactly as many headers as the original |
| `CsvImport.RemapAllAt` | api_yamdb/reviews/management/commands/import_csv_data.py:29-33 | at every position, an alias key is replaced by its mapped column and any other header is kept unchanged |
| `CsvImport.NoAliasAfterRemap` | api_yamdb/reviews/management/commands/import_csv_data.py:19-22 | no position of a remapped header row holds an alias key |
| `CsvImport.RemapIdempotent` | api_yamdb/reviews/management/commands/import_csv_data.py:19-22 | remapping an already remapped header row changes nothing |
| `CsvImport.RemapHeaders` | api_yamdb/reviews/management/commands/import_csv_data.py:28-33 | the append loop builds exactly the header-by-header remapping of the header row |
| `CsvImport.KeyRows` | api_yamdb/reviews/management/commands/import_csv_data.py:34 | every returned row is keyed by the remapped headers and holds a non-blank record; there are no more rows than records |
| `CsvImport.KeyRowsOne` | api_yamdb/reviews/management/commands/import_csv_data.py:34 | a single record becomes one row keyed by the headers, or nothing when it is blank |
| `CsvImport.KeyRowsConcat` | api_yamdb/reviews/management/commands/import_csv_data.py:34 | keying the records of a + b is keying a, then b: rows keep the file order of their records |
| `CsvImport.KeyRowsNoBlanks` | api_yamdb/reviews/management/commands/import_csv_data.py:34 | without blank records, the i-th row is the i-th record after the header, keyed by the headers |
| `CsvImport.ReadConsumesHeader` | api_yamdb/reviews/management/commands/import_csv_data.py:26-34 | rows come only from a readable, non-empty file; the headers are the remapped first record; the rows are the records after it, keyed by those headers, and without blank records the i-th row is record i + 1 |
| `CsvImport.Read` | api_yamdb/reviews/management/commands/import_csv_data.py:25-34 | not-found exactly when the file is missing; a read failure exactly when it is unreadable or empty; otherwise the remapped first record as headers and fewer rows than records |
| `CsvImport.ReadCsvFile` | api_yamdb/reviews/management/commands/import_csv_data.py:25-34 | reading yields not-found exactly for a missing file, a read failure for an unreadable or empty file, and otherwise the remapped headers and keyed rows |
| `CsvImport.Store.Create` | api_yamdb/reviews/management/commands/import_csv_data.py:41 | an insert succeeds exactly when the constraint, which sees every stored table, admits the row; a success appends the row to its model's table and a failure changes nothing |
| `CsvImport.Load` | api_yamdb/reviews/management/commands/import_csv_data.py:37-48 | 0 <= errors <= len(data), and there is one message per failed row |
| `CsvImport.LoadGrowth` | api_yamdb/reviews/management/commands/import_csv_data.py:39-48 | the model's table grows by exactly len(data) - errors rows, and the rows it held before stay in front |
| `CsvImport.LoadPrefixStep` | api_yamdb/reviews/management/commands/import_csv_data.py:39-47 | one more row of a file is either appended to its table, or counted as one more error with one more message, as the constraint decides |
| `CsvImport.LoadConcat` | api_yamdb/reviews/management/commands/import_csv_data.py:39-47 | loading a + b is loading a, then b on the resulting store; counts and messages add up, so a failing row never stops later rows |
| `CsvImport.LoadOneMore` | api_yamdb/reviews/management/commands/import_csv_data.py:40-43 | one more row raises the error count by exactly one when its insert fails, and by zero when it succeeds |
| `CsvImport.LoadFrame` | api_yamdb/reviews/management/commands/import_csv_data.py:41 | loading a file changes only its own model's table |
| `CsvImport.LoadLogsOnlyRowFailures` | api_yamdb/reviews/management/commands/import_csv_data.py:42-47 | every message emitted during a load reports a failed row of that model |
| `CsvImport.LoadAllAdmitted` | api_yamdb/reviews/management/commands/import_csv_data.py:39-41 | when every insert succeeds, there are no errors and all rows are appended in file order |
| `CsvImport.LoadNoneAdmitted` | api_yamdb/reviews/management/commands/import_csv_data.py:39-43 | when every insert fails, errors == len(data) and the store is unchanged |
| `CsvImport.LoadAgainstEmptyReference` | api_yamdb/reviews/management/commands/import_csv_data.py:39-43 | when every insert into a model needs a row of another table and that table is empty, every row fails and the store is unchanged |
| `CsvImport.LoadDistinctRows` | api_yamdb/reviews/management/commands/import_csv_data.py:39-41 | under a uniqueness constraint, distinct new rows all load, in order, with no errors |
| `CsvImport.DuplicateRowFailsAlone` | api_yamdb/reviews/management/commands/import_csv_data.py:39-48 | distinct new rows followed by a repeat of one of them: all distinct rows are stored, and only the repeat fails and is reported |
| `CsvImport.Summary` | api_yamdb/reviews/management/commands/import_csv_data.py:48-52 | the summary line names its file and its error count, and succeeded + failed == total rows |
| `CsvImport.LoadCsv` | api_yamdb/reviews/management/commands/import_csv_data.py:37-52 | the counting loop leaves the store and messages of the sequential load, followed by the summary line |
| `CsvImport.Step` | api_yamdb/reviews/management/commands/import_csv_data.py:59-67 | processing one file only appends to the messages, ending with a file-level line naming that file; a missing or unreadable file leaves the store unchanged |
| `CsvImport.StepReportsFile` | api_yamdb/reviews/management/commands/import_csv_data.py:60-67 | processing one file emits exactly one file-level line for it: missing, unreadable or loaded |
| `CsvImport.Run` | api_yamdb/reviews/management/commands/import_csv_data.py:58 | walking the table emits at least one line per entry |
| `CsvImport.RunReportsEveryFileInOrder` | api_yamdb/reviews/management/commands/import_csv_data.py:58-67 | the file-level lines name every file of the table once, in table order; an unreadable file does not stop the later ones |
| `CsvImport.HandleFileOrder` | api_yamdb/reviews/management/commands/import_csv_data.py:9-17 | the command handles category, genre, titles, genre_title, users, review, comments, in that order |
| `CsvImport.FileNameModelDistinct` | api_yamdb/reviews/management/commands/import_csv_data.py:9-17 | each model appears only once in the file table |
| `CsvImport.RunFrame` | api_yamdb/reviews/management/commands/import_csv_data.py:58-67 | a model that no processed file names keeps its table |
| `CsvImport.RunSkipsUnreadFile` | api_yamdb/reviews/management/commands/import_csv_data.py:60-67 | a missing or unreadable file loads nothing into its model's table |
| `CsvImport.HandleEntry` | api_yamdb/reviews/management/commands/import_csv_data.py:59-67 | one pass of the loop leaves the store and messages of processing that file |
| `CsvImport.Handle` | api_yamdb/reviews/management/commands/import_csv_data.py:57-67 | the driver loop leaves the store and messages of processing the file table in order |
| `Auth.SignupDecision` | api_yamdb/api/views.py:56-74 | a success echoes the pair; "email exists" iff the pair is not on file and the email is registered; "username exists" iff the pair is not on file, the email is free and the username is taken |
| `Auth.AfterSignup` | api_yamdb/api/views.py:57 | the table is unchanged or gains the new user with the default role under a free username; afterwards the pair is on file iff signup succeeded |
| `Auth.SignupKeepsUnique` | api_yamdb/api/views.py:56-57 | signup keeps usernames and emails unique in the user table |
| `Auth.SignupIdempotentOnFile` | api_yamdb/api/views.py:57 | signup with a (username, email) pair already on file echoes the pair and leaves the table unchanged |
| `Auth.SignupTwice` | api_yamdb/api/views.py:75-77 | after a successful signup the pair is on file, so repeating it echoes again and changes nothing |
| `Auth.ConflictEmailFirst` | api_yamdb/api/views.py:66-71 | a collision on a registered email is reported as "email exists" whatever the username, and nothing is stored |
| `Auth.ConflictUsername` | api_yamdb/api/views.py:72-74 | a collision on a taken username with an unregistered email is reported as "username exists", and nothing is stored |
| `Auth.SignupOutcome` | api_yamdb/api/views.py:56-78 | signup succeeds iff the pair is on file or both fields are free; a success echoes the pair unchanged; a conflict means a different user holds the username or the email |
| `Auth.SignupThenLookup` | api_yamdb/api/views.py:87-88 | after a successful signup the username resolves to the user holding that email, so a later token request is not "not found" |
| `Auth.UserStore.Signup` | api_yamdb/api/views.py:53-78 | keeps the store invariant; answers and updates the table as the decision prescribes; mails a code to the user exactly when signup succeeds, including on a re-signup |
| `Auth.UserStore.ObtainToken` | api_yamdb/api/views.py:84-96 | not-found iff the username is unknown; a token for that user iff the code checks out; otherwise a validation error and no token |
| `Nested.Permissions` | api_yamdb/api/views.py:195-198 | create needs only authentication; every other action uses the author/admin/moderator-or-read-only permission |
| `Nested.ReviewQueryset` | api_yamdb/api/views.py:200-203 | not-found iff the title does not exist; otherwise exactly the reviews of that title |
| `Nested.ReviewCreate` | api_yamdb/api/views.py:205-208 | not-found iff the title does not exist; otherwise the review is stored with the requesting user and that title, and nothing else changes |
| `Nested.ReviewCreateListed` | api_yamdb/api/views.py:200-208 | a created review keeps the catalog consistent and appears in its title's review list |
| `Nested.ScopedReview` | api_yamdb/api/views.py:226 | the lookup succeeds iff a review with that key belongs to that title, and then it is that review |
| `Nested.CommentQueryset` | api_yamdb/api/views.py:223-227 | not-found unless the review belongs to the title; otherwise exactly the comments of that review |
| `Nested.CommentCreate` | api_yamdb/api/views.py:229-233 | not-found unless the review belongs to the title; otherwise the comment is stored on that review and nothing else changes |
| `Nested.CommentWrongTitle` | api_yamdb/api/views.py:224-233 | a review that exists under another title does not resolve, for listing or creating comments |
| `Nested.CommentPathImpliesReviewPath` | api_yamdb/api/views.py:223-227 | when a comment path resolves, the title exists and the review is listed under it |
| `Nested.CommentCreateListed` | api_yamdb/api/views.py:229-233 | a created comment keeps the catalog consistent and appears in its review's comment list |

`CommentViewSet.get_permissions` (api_yamdb/api/views.py:218-221) is the
same switch as the one in `ReviewViewSet`. `Nested.Permissions` models
both.

## Left out

- CSV tokenisation (quoting, encodings, multi-line fields) is not modelled. A record is the field sequence the reader has already split.
- DictReader's pairing of keys with values is not modelled: padding missing fields, collecting extra ones, and duplicate keys. A `Row` keeps the remapped headers and the record side by side.
- `os.path.join` and `settings.CSV_FILES_DIR` are not modelled. The directory is a map from file name to an abstract "unreadable" or "readable with these records" state; a name absent from it is a missing file.
- The text of the printed messages is not modelled, and neither is the full path shown in the not-found message. Each message is a `Message` value naming its file, or its model and row.
- The ORM insert's own checks are one abstract constraint, `admits`. It decides from the model, every table already stored (so a foreign key into another table can be checked) and the new row. Any exception the insert raises is a failure.
- Serializer validation is in serializers.py, which is not part of this model. That covers `UserRegistrationSerializer`, `TokenObtainSerializer`, and `ReviewSerializer`'s one-review-per-author-and-title check. The operations start from validated data.
- `default_token_generator`, `AccessToken.for_user` and `send_mail` are foreign calls. The generator is `makeToken` and `checkToken`; a token is `AccessToken(user)`; a sent mail is a `Mail` record in the store's outbox.
- `get_or_create`'s retry after a concurrent insert is not modelled. Calls are modelled one at a time.
- The permission classes' own decisions (permissions.py) are not part of this model. Only which class a request is checked against is modelled.
- Nested.ReviewQueryset: returns the review keys as a set, without the `pub_date` ordering.
- Nested.CommentQueryset: returns the comment keys as a set, without the `pub_date` ordering.
- Nested.ReviewCreate: the new row's key is passed in, fresh for its table. It stands for the key the database assigns.
- Nested.CommentCreate: the new row's key is passed in, fresh for its table. It stands for the key the database assigns.
- The `rating` annotation (`Avg` over review scores) is not modelled: it is an ORM aggregate with a floating-point result.
- Not modelled, because they are declarative configuration over framework code: search, filter, ordering and pagination backends, `TitleViewSet.get_serializer_class`, `UserViewSet` and its `me` actions, and the category and genre viewsets.
- api_yamdb/api/urls.py is routing registration only. It is used only to take path keys to be natural numbers.
