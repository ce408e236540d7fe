# Wrestling weight tracker — a verified model

The weight tracker lets a school keep its wrestling roster and record each wrestler's weight
before and after practice. A school signs in with a login code and a password. An administrator
creates and removes schools. This project models the system's core in Dafny:

- **The serverless handlers.** They work over three tables: `schools`, `wrestlers` and `weights`.
  - The tables and the SQL statements the handlers run are the class `Store.Database`. Each
    statement is one method that changes the tables in place.
  - Each handler that changes the store is a method on that database (add, update and delete a
    wrestler; add a weight record; update the school's settings; create a school twice over; delete
    a school). It returns the status code and the body.
  - Each read-only handler is a function over the tables (list wrestlers, weight history, the two
    school logins, token verify, administrator login, list schools).
  - Token checks (`jwt.verify`, `jwt.sign`), password hashing (`bcrypt.hash`, `bcrypt.compare`)
    and the environment variables are oracles. They are function-valued fields of `Auth.Env`.
  - A failed connection to the database is the parameter `fault`, which carries the error
    message.
  - A request body is `Requests.Parsed`: either the parsed properties, each of them undefined,
    null or given, or the message a malformed body throws.
- **The client's data transformations.** These cover the reporting screen (roster filter and sort,
  records grouped per wrestler, practice days, the per-day chart fold, average loss, missed
  practices, the two-column report), the weight-entry screen (date rewriting, name split,
  filter/hide/sort chain), the graph screen, and the quick weigh-in page. They also cover the older
  spreadsheet client `src/App.js`.
  - Date parsing is a parameter: a day-key function, a weekday predicate or a time function.
- **The client's small state machines.** These are the entry form with its weighed-in hide map
  and inactivity reset, the quick weigh-in form, the view routing, and the signed-in session
  mirrored into browser storage.

The modules follow the repository:

| Module | Source |
|---|---|
| `Wrestlers` | add-wrestlers, get-wrestlers, update-wrestler, delete-wrestler |
| `Weights` | add-weight-record, get-weight-history |
| `Settings` | update-schools-settings |
| `Login` | login.js |
| `CodeLogin` | auth/login.js |
| `Verify` | verify.js |
| `AdminLogin` | admin-login.mjs |
| `Admin` | create-school.js, admin/create-school.js, list-schools.js, admin/delete-school.js |
| `Reporting`, `DayGroups`, `WeightEntry`, `GraphView`, `LegacyApp`, `QuickEntry`, `Routing`, `Session` | the client components |
| `Schema`, `Store`, `Auth`, `Http`, `Requests`, `Text`, `Order`, `Seqs`, `Uri`, `Wrappers` | shared definitions |

Integers are unbounded. Weights are integers, in the unit the client sends. `Order.Sort` is a
stable insertion sort on composite keys. A missing (NULL) key part sorts last, as in PostgreSQL's
ascending order.

## Model

| member | source | states |
|---|---|---|
| Auth.StripBearer | netlify/functions/add-wrestlers.js:8-9 | A header without a `Bearer` prefix comes back whole. With the prefix, the result is the header's tail after `Bearer` and all the white space that follows, so it never starts with white space. |
| Auth.StripBearerExact | netlify/functions/verify.js:6 | For `Bearer` in any letter case, a non-empty run of white space, and a token not starting with white space, exactly the token is left. |
| Auth.VerifyToken | netlify/functions/add-wrestlers.js:7-13 | An empty stripped token fails with "No token". Any other token is whatever the verify oracle answers for it. |
| Auth.NoHeaderNoToken | netlify/functions/add-wrestlers.js:8-10 | A missing header, an empty header, and a header that is only the prefix and white space all fail with "No token". |
| Store.Database.constructor | netlify/functions/add-wrestlers.js:25-31 | The empty store satisfies the integrity constraints. |
| Store.Database.InsertWrestler | netlify/functions/add-wrestlers.js:25-31 | For a school that exists, appends exactly one row with a fresh id and leaves the other tables alone. For a missing school it fails with the foreign-key message and changes nothing. |
| Store.Database.InsertWeight | netlify/functions/weights/add-weight-record.js:40-43 | Appends exactly one weight row with the next id and the given values. Nothing else changes. |
| Store.Database.InsertSchool | netlify/functions/create-school.js:18-22 | A repeated login code fails with the unique-constraint message and changes nothing. Otherwise exactly one school row with a fresh id is appended. |
| Store.Database.UpdateWrestlers | netlify/functions/update-wrestler.js:38-40 | The wrestler table becomes the SET clause applied to the rows with the bound id, with RETURNING giving those rows. The other tables are unchanged. |
| Store.Database.UpdateSchools | netlify/functions/update-schools-settings.js:44-47 | The same for the school table. |
| Store.Database.DeleteWeightsOfWrestler | netlify/functions/delete-wrestler.js:27 | Exactly the weights of that wrestler go. |
| Store.Database.DeleteWrestler | netlify/functions/delete-wrestler.js:28 | Requires that no weight references the id, which is the foreign key. Exactly the rows with that id go. |
| Store.Database.DeleteWeightsOfSchool | netlify/functions/admin/delete-school.js:14 | Exactly the weights whose wrestler belongs to the school go. |
| Store.Database.DeleteWrestlersOfSchool | netlify/functions/admin/delete-school.js:15 | Requires that no weight references a wrestler of the school. Exactly that school's wrestlers go. |
| Store.Database.DeleteSchool | netlify/functions/admin/delete-school.js:16 | Requires that no wrestler references the school. Exactly the school's row goes. |
| Store.FilterUniqueCodes | netlify/functions/admin/delete-school.js:16 | Removing schools keeps the remaining login codes unique. |
| Wrestlers.AddWrestler | netlify/functions/add-wrestlers.js:14-39 | Error paths, each leaving the store unchanged: a token failure gives 401 with its message, a malformed body 401, a falsy first or last name 400 "Missing fields", a connection failure 401, and a school missing from the table 401. Otherwise exactly one row is appended. That row has the token's school id, the given names, `weightClass \|\| 0` and the sex as given. The reply carries its id and names. |
| Wrestlers.SchoolRoster | netlify/functions/get-wrestlers.js:23-26 | The rows are a permutation of the school's wrestlers, ordered by (last name, first name). Every returned row belongs to the school, and every wrestler of the school is returned. |
| Wrestlers.Items | netlify/functions/get-wrestlers.js:30-37 | Projects row for row. Each item copies the row's columns, and its `name` is first + " " + last. |
| Wrestlers.ListWrestlers | netlify/functions/get-wrestlers.js:14-43 | A token failure or a connection failure gives 401 with its message. Otherwise 200 with the projected roster of the token's school. It is a function of the tables, so it changes nothing. |
| Wrestlers.ListWrestlersScoped | netlify/functions/get-wrestlers.js:23-37 | With a valid token, every listed wrestler belongs to the token's school and every wrestler of that school is listed. |
| Wrestlers.BuildWrestlerUpdate | netlify/functions/update-wrestler.js:23-29 | The clause is built with a running counter. Column i (in field order) gets placeholder $i bound to the body's value for it, and the counter ends at k+1. The clause's columns are exactly the supplied (not undefined) fields. |
| Wrestlers.ClauseFacts | netlify/functions/update-wrestler.js:23-29 | Such a clause applied to any row gives the intended patch, whatever is bound after its k parameters. |
| Wrestlers.PatchSupplied | netlify/functions/update-wrestler.js:26-29 | Setting exactly the supplied columns gives the intended row. `null` and `""` overwrite, and undefined fields keep their values. |
| Wrestlers.PatchColumnsFields | netlify/functions/update-wrestler.js:23-29 | A column in the list takes the body's value, and any other column keeps its old value. The id and the school are kept. |
| Wrestlers.ApplyIsPatch | netlify/functions/update-wrestler.js:38-39 | A SET clause whose placeholders are bound to the body's values does what the patch intends. |
| Wrestlers.UpdateIsPatch | netlify/functions/update-wrestler.js:38-39 | The UPDATE with that clause and the id bound at $k+1 changes the table exactly as the patch intends. |
| Wrestlers.PatchRows | netlify/functions/update-wrestler.js:38 | Only rows with the id change, each to its patched version. Every other row is kept. |
| Wrestlers.ReturnedRow | netlify/functions/update-wrestler.js:38-44 | RETURNING yields no row for an unknown id, and otherwise the patched first row with that id. |
| Wrestlers.UpdateWrestler | netlify/functions/update-wrestler.js:14-47 | Error paths, each leaving the store unchanged: a token failure 401, a malformed body 401, a falsy id 400 "Missing wrestler id", no supplied field 400 "No fields to update", and a connection failure 401. Otherwise the row with that id is patched in whatever school it is. An unknown id changes nothing and answers 401, because `r` is undefined. A known id answers 200 with the patched row. |
| Wrestlers.FindWrestler | netlify/functions/update-wrestler.js:40-44 | The first row with that id, or none exactly when no row has it. |
| Wrestlers.DeleteWrestler | netlify/functions/delete-wrestler.js:14-37 | Error paths, each leaving the store unchanged: a token failure 401, a malformed body 401, a falsy id 400 "Missing wrestler id", and a connection failure 401. Otherwise the wrestler's weights are deleted, then the wrestler, in any school. Afterwards no row has the id and no weight references it. Every other wrestler and weight is kept, and the answer is 200. |
| Wrestlers.DeleteAbsentChangesNothing | netlify/functions/delete-wrestler.js:27-32 | Deleting an id that no wrestler has changes neither table. |
| Wrestlers.DeleteTwice | netlify/functions/delete-wrestler.js:27-28 | The delete is idempotent. |
| Weights.FindByName | netlify/functions/weights/add-weight-record.js:28-31 | A found wrestler is in the token's school and has exactly the first and last names. None means no wrestler of that school has them. |
| Weights.LookupStaysInSchool | netlify/functions/weights/add-weight-record.js:29 | A same-named wrestler of another school is never chosen, and the lookup fails exactly when no wrestler of the caller's school has the names. |
| Weights.AddWeightRecord | netlify/functions/weights/add-weight-record.js:14-52 | Error paths, each leaving the store unchanged: a token failure 401, a malformed body 401, a falsy first name, last name or weight (0 included) 400 "Missing fields", a connection failure 401, and no such wrestler in the school 400 "Wrestler not found". Otherwise exactly one weight row is appended for the found wrestler, with date and type stored as given, and the answer is 200. Wrestlers and schools are never written. |
| Weights.Join | netlify/functions/weights/get-weight-history.js:27-28 | A row is in the join exactly when its weight and wrestler are in the tables and the wrestler id matches. |
| Weights.HistoryRows | netlify/functions/weights/get-weight-history.js:24-35 | The rows are the selected join rows, each as often as the join holds it, in ascending stored-date order. Selected means the school's, and, for a non-empty filter, those whose `first last` contains the filter ignoring case. |
| Weights.HistoryItems | netlify/functions/weights/get-weight-history.js:38-45 | Each item has the weight's id, date, weight and type, the joined wrestler's id, and the name first + " " + last. |
| Weights.WeightHistory | netlify/functions/weights/get-weight-history.js:14-51 | A token failure or a connection failure gives 401. Otherwise 200 with the history of the token's school, where a missing parameter counts as empty. It is a function of the tables, so it changes nothing. |
| Weights.HistoryUnfilteredIsSchool | netlify/functions/weights/get-weight-history.js:18-34 | Without a filter, every weight of a wrestler of the school is listed, and every listed record belongs to such a wrestler. |
| Weights.HistoryFiltered | netlify/functions/weights/get-weight-history.js:29-34 | With a filter, a record is listed exactly when its wrestler is the school's and the name contains the filter ignoring case. |
| Weights.HistoryByDate | netlify/functions/weights/get-weight-history.js:31 | Listed records appear in ascending order of stored date. |
| Settings.BuildSettingsUpdate | netlify/functions/update-schools-settings.js:25-37 | Name, primary colour and secondary colour each get the next placeholder when they are not undefined. The password gets one, bound to its hash, only when it is non-empty. The clause's columns are exactly those. |
| Settings.ParamFor | netlify/functions/update-schools-settings.js:29-36 | Every bound value fits its column, and the password is bound as its hash. |
| Settings.ClauseFacts | netlify/functions/update-schools-settings.js:25-37 | That clause applied to any school row gives the intended patch. |
| Settings.PatchSupplied | netlify/functions/update-schools-settings.js:29-37 | Setting exactly the supplied columns gives the intended row. |
| Settings.PatchColumnsFields | netlify/functions/update-schools-settings.js:29-37 | A column in the list takes the body's value (the password its hash), and any other column keeps its old value. The id and login code are kept. |
| Settings.ApplyIsPatch | netlify/functions/update-schools-settings.js:44-47 | A bound SET clause does what the patch intends. |
| Settings.UpdateIsPatch | netlify/functions/update-schools-settings.js:44-47 | The UPDATE with the school id at $k+1 applies the patch to that school and to no other row. |
| Settings.PatchRows | netlify/functions/update-schools-settings.js:44-45 | Only the token's school row changes. |
| Settings.FindSchool | netlify/functions/update-schools-settings.js:47-50 | The first row with the id, or none exactly when no row has it. |
| Settings.ReturnedRow | netlify/functions/update-schools-settings.js:44-50 | RETURNING gives the patched row of the school, or nothing when it no longer exists. |
| Settings.UpdateSchoolSettings | netlify/functions/update-schools-settings.js:16-55 | Error paths, each leaving the store unchanged: a token failure 401, a malformed body 401, a connection failure 401 (before the empty check), and nothing supplied 400 "No updates provided". Otherwise only the token's school is patched, and no id is read from the body. The answer is 200 with the new settings without the hash, and with no `school` when the row is gone. |
| Settings.PatchedKeeps | netlify/functions/update-schools-settings.js:29-37 | The id and login code never change. An empty or missing password keeps the hash, and a non-empty one replaces it by its hash. An undefined name or colour keeps its value. |
| Login.FindByCode | netlify/functions/login.js:26-32 | A found school has the login code. None means no school has it. |
| Login.FoundIsOnly | netlify/functions/login.js:26-32 | Login codes are unique in a valid store, so the school found is the only school with that code. |
| Login.ProfileOf | netlify/functions/login.js:60-66 | The profile is the row's id, login code, name and colours, without the hash. |
| Login.HandleLogin | netlify/functions/login.js:13-74 | A malformed body gives 500. A missing code or password gives 400 "Missing login_code or password_hash". A connection failure gives 500. An unknown code gives 401 "Invalid credentials1", a wrong password 401 "Invalid credentials2", and a match 200 with the token and profile. It is a function of the table, so it changes nothing. |
| Login.LoginOutcome | netlify/functions/login.js:36-68 | For a school holding the code, the compare oracle alone decides between 401 "Invalid credentials2" and 200 with the token signed over {school_id, login_code} for 12h and the public profile. |
| Login.LoginRevealsCodes | netlify/functions/login.js:36-48 | An unknown code and a wrong password give different bodies. |
| Login.LoginSignsOwner | netlify/functions/login.js:42-54 | A 200 always signs the claims of a school that has the code and whose hash the password matches. |
| CodeLogin.ProfileOf | netlify/functions/auth/login.js:50-56 | The profile is the row's id, code, name and colours, without the hash. |
| CodeLogin.HandleCodeLogin | netlify/functions/auth/login.js:13-63 | A malformed body gives 500. A missing code or password gives 400 "Missing code or password". A connection failure gives 500. Otherwise 401 "Invalid credentials" or 200 with the token over {school_id, code}. |
| CodeLogin.CodeLoginOutcome | netlify/functions/auth/login.js:30-58 | The handler answers 401 "Invalid credentials" when no school has the code or the password does not match, and otherwise 200 with the signed claims and the profile. |
| CodeLogin.FailuresIdentical | netlify/functions/auth/login.js:30-38 | An unknown code and a wrong password give identical replies. |
| Verify.HandleVerify | netlify/functions/verify.js:5-16 | An empty stripped token gives 401 "No token". A token the oracle rejects gives 401 "Invalid token". An accepted one gives 200 with `valid` and the unchanged payload. |
| Verify.VerifyAgreesWithHelper | netlify/functions/verify.js:6-12 | The endpoint answers 200 exactly when the tenant helper accepts the header, with the same payload. |
| Verify.VerifiesStrippedToken | netlify/functions/verify.js:6 | For `Bearer` in any letter case, then white space, then t, exactly t is verified. |
| Verify.VerifiesWholeHeader | netlify/functions/verify.js:6 | A non-empty header without the prefix is verified whole. |
| AdminLogin.HandleAdminLogin | netlify/functions/admin-login.mjs:1-18 | A malformed body throws. Both values strictly equal to the environment's gives 200 with the token "MASTER_ADMIN". Anything else gives 401 "Invalid credentials". |
| AdminLogin.AdminOutcome | netlify/functions/admin-login.mjs:4-17 | A parsed body gets one of exactly two answers, and the token is the same constant whatever the input. |
| AdminLogin.ConfiguredMatch | netlify/functions/admin-login.mjs:4-6 | With both variables set, the answer is 200 exactly when both strings are equal to theirs. |
| AdminLogin.UnsetAcceptsEmptyBody | netlify/functions/admin-login.mjs:2-6 | With both variables unset, a body omitting both properties is let in, because undefined === undefined. A body that gives a username is refused. |
| Admin.HashOf | netlify/functions/create-school.js:12 | The hash succeeds exactly for a string password, and is the hash oracle's value for it. |
| Admin.CreateSchool | netlify/functions/create-school.js:4-30 | A malformed body throws. A token other than "MASTER_ADMIN" gives 401 "Unauthorized" before any hashing. A password that is not a string throws. A connection failure or a repeated login code gives 500 with the message. Every one of these changes nothing. Otherwise exactly one school is appended, with the name, code and hash and no colours, and the answer is 200 "School created". Other tables and schools are unchanged. |
| Admin.CreateSchoolPlain | netlify/functions/admin/create-school.js:4-25 | The same gate and insert with plain-text bodies: 401 "Unauthorized" and 200 "School created". Store failures are not caught and escape the handler. |
| Admin.CreatedSchoolFound | netlify/functions/create-school.js:18-22 | A school created with a fresh code is the one the login handler finds by that code. |
| Admin.Listings | netlify/functions/list-schools.js:19 | Each listed row carries id, name, login code and colours, and never the hash. |
| Admin.ListSchools | netlify/functions/list-schools.js:3-32 | A malformed body or a connection failure gives 500. A wrong token gives 401 "Unauthorized". Otherwise 200 with the listing of the table sorted by name, unnamed schools last. It is a function of the table, so it is read-only. |
| Admin.ListingCoversSchools | netlify/functions/list-schools.js:18-27 | The listing shows every school as often as the table holds it, and nothing else. |
| Admin.ListingIdsDistinct | netlify/functions/list-schools.js:18-27 | In a valid store no school is listed twice. |
| Admin.ListingByName | netlify/functions/list-schools.js:19 | The listing is ascending by name, with unnamed schools last. |
| Admin.DeleteSchool | netlify/functions/admin/delete-school.js:3-22 | A malformed body throws. A wrong token gives 401 "Unauthorized" and deletes nothing. A store failure throws. Otherwise the school's weights, then its wrestlers, then the school are deleted. Each step satisfies the next one's foreign-key precondition. Exactly the rows of that school go, and the answer is 200 "School deleted". |
| Admin.CascadeLeavesNothing | netlify/functions/admin/delete-school.js:14-16 | Afterwards no school has the id, no wrestler has that school, and no weight belongs to one of its wrestlers. |
| Admin.DeleteAbsentSchool | netlify/functions/admin/delete-school.js:14-18 | An absent or null id changes no table. |
| Reporting.SexFiltered | src/components/Reporting.jsx:28-29 | With "All" the roster as it is. Otherwise the wrestlers whose `sex \|\| ""` equals the filter. |
| Reporting.FilteredWrestlers | src/components/Reporting.jsx:27-32 | A permutation of the sex-filtered roster, ordered by the lower-cased "first last". |
| Reporting.FilteredContents | src/components/Reporting.jsx:27-32 | With "All", a permutation of the roster. Otherwise a wrestler is listed exactly when it is on the roster with that sex. |
| Reporting.PerWrestler | src/components/Reporting.jsx:34-42 | The map's keys are exactly the wrestlers with records. Each list is that wrestler's records, sorted by time. |
| Reporting.CollectById | src/components/Reporting.jsx:35-39 | The first loop maps each wrestler id with records to its records in loading order. |
| Reporting.PerWrestlerPartition | src/components/Reporting.jsx:34-42 | Each group holds exactly its wrestler's records, each as often as loaded, and is ascending in time. Every record's wrestler has a group. |
| Reporting.PracticeDates | src/components/Reporting.jsx:44-59 | A day is listed exactly when at least two distinct wrestlers have a weekday "before" record on it. The list is strictly increasing. |
| Reporting.GroupByDay | src/components/Reporting.jsx:45-54 | Each day with a weekday "before" record maps to the set of wrestlers with such a record that day. The day order is the list of distinct days of those records, in first-occurrence order. |
| Reporting.Crowded | src/components/Reporting.jsx:55-56 | The kept days are exactly the grouped days with two or more wrestlers, each kept once. |
| Reporting.Toggle | src/components/Reporting.jsx:61-63 | A present id is removed with all its copies. An absent one is appended once. Every other id keeps its membership. |
| Reporting.ToggleTwice | src/components/Reporting.jsx:61-63 | Toggling twice restores membership, and restores the list itself when the id was absent. |
| Reporting.AllOrSelected | src/components/Reporting.jsx:65 | Under "select all", the filtered roster. Otherwise the filtered wrestlers whose id is selected, in order. |
| Reporting.Readings | src/components/Reporting.jsx:70-74 | Each record becomes its day key, type and weight, in order. |
| Reporting.GraphDataFor | src/components/Reporting.jsx:67-77 | The per-day points of the wrestler's records, with a missing wrestler counting as no records. |
| Reporting.AvgLossFor | src/components/Reporting.jsx:79-93 | The mean loss over the wrestler's complete days, or none. |
| Reporting.MissingCountFor | src/components/Reporting.jsx:95-102 | The number of practice dates without a "before" record of the wrestler, and at most the number of practice dates. |
| Reporting.MissedNone | src/components/Reporting.jsx:95-102 | No practice is missed exactly when the wrestler has a "before" record on each. With none of them, all are missed. |
| Reporting.AvgRows | src/components/Reporting.jsx:207-208 | One row per chosen wrestler with records, in roster order, holding the mean loss over complete days or 0. Every such wrestler has its row. |
| Reporting.MissEntries | src/components/Reporting.jsx:232-234 | Each row belongs to a chosen wrestler with records and holds its missed count. Every such wrestler has its row. |
| Reporting.MissRows | src/components/Reporting.jsx:232-235 | A permutation of those rows in descending order of count. |
| Reporting.MissRowsContents | src/components/Reporting.jsx:232-235 | A row is in the report exactly when it is some chosen wrestler's, with records, and holds that wrestler's count. |
| Reporting.SplitColumns | src/components/Reporting.jsx:209-211 | Left followed by right is the list, and the left column has ceil(n/2) entries. |
| Reporting.RowCount | src/components/Reporting.jsx:212 | The row count is the left column's length, and n ≤ 2·rows ≤ n+1. |
| Reporting.ColumnCells | src/components/Reporting.jsx:236-239 | Entry k is shown in row k on the left when k < rows, and otherwise in row k−rows on the right. |
| DayGroups.Days | src/components/GraphView.jsx:23-31 | The distinct day keys of the records, in order of first occurrence. |
| DayGroups.Points | src/components/GraphView.jsx:23-31 | One point per distinct day, in order of first occurrence. |
| DayGroups.Group | src/components/GraphView.jsx:23-31 | The object-and-key-order fold computes exactly those points. |
| DayGroups.DaysDistinct | src/components/GraphView.jsx:26 | No day is charted twice. |
| DayGroups.DaysMembers | src/components/GraphView.jsx:23-31 | A day has a point exactly when some record falls on it. |
| DayGroups.DaysPrefix | src/components/GraphView.jsx:23-31 | Later records only append days, so points keep the order in which their day first occurs. |
| DayGroups.LastOfMeaning | src/components/GraphView.jsx:27-28 | A point's before or after is the weight of the last record of that type on that day, or null when there is none. |
| DayGroups.LastOfAbsent | src/components/GraphView.jsx:26 | A day without a point has no weight on either side. |
| DayGroups.CompleteCount | src/components/Reporting.jsx:88-91 | The number of complete days among the points is at most the number of points. |
| DayGroups.AverageLoss | src/components/Reporting.jsx:88-92 | The accumulation loop gives the mean loss. |
| DayGroups.NoCompleteDay | src/components/Reporting.jsx:92 | The mean is null exactly when no day has both weights. |
| DayGroups.MeanBounds | src/components/Reporting.jsx:88-92 | The mean lies between any lower and upper bound on the daily losses. |
| DayGroups.LossSumBounds | src/components/Reporting.jsx:88-91 | Bounds on each complete day's loss bound the sum. |
| WeightEntry.SubmitDate | src/components/WeightEntry.jsx:70-74 | An empty date sends today's date. A year-month-day date becomes month/day/year. Any other text is sent unchanged. |
| WeightEntry.DisplayDate | src/components/WeightEntry.jsx:208 | A month/day/year text is shown as year-month-day. Anything else is shown unchanged. |
| WeightEntry.IsoUsRoundTrip | src/components/WeightEntry.jsx:70-72 | Rewriting year-month-day into month/day/year and back gives the original. |
| WeightEntry.UsIsoRoundTrip | src/components/WeightEntry.jsx:208 | The same in the other direction. |
| WeightEntry.DateRoundTrip | src/components/WeightEntry.jsx:70-72 | A picked date is shown again as picked after the submit's rewrite, and the reverse. |
| WeightEntry.SplitNames | src/components/WeightEntry.jsx:68-69 | The first name has no space. With a space in the selection, first + " " + last is the selection. Without one, the last name is empty. |
| WeightEntry.SplitChosen | src/components/WeightEntry.jsx:68-69 | A spaceless first name and any last name, joined by a space, split back into themselves. |
| WeightEntry.ZeroClassTexts | src/components/WeightEntry.jsx:143-154 | The filter reads a weight class of 0 as empty, while the sort reads it as "0". |
| WeightEntry.FilterMeaning | src/components/WeightEntry.jsx:137-145 | A blank filter keeps every card. Otherwise a card is kept exactly when the trimmed lower-cased filter occurs in the first name, the last name or the weight-class text. |
| WeightEntry.CardsMembers | src/components/WeightEntry.jsx:137-146 | A card is shown exactly when the wrestler is on the roster, passes the filter and is not hidden. It is hidden only when hiding is on, the filter is blank and its id is in the map. |
| WeightEntry.Cards | src/components/WeightEntry.jsx:137-158 | The shown cards are sorted by the chosen key. A wrestler appears as often as the roster holds it when it passes the text filter and is not hidden, and otherwise not at all. |
| WeightEntry.CardsByLast | src/components/WeightEntry.jsx:149-155 | "last" orders by last name, then first name, ignoring case. |
| WeightEntry.CardsByWeight | src/components/WeightEntry.jsx:153-156 | "weight" orders by weight class as text, then last, then first. |
| WeightEntry.CardsByFirst | src/components/WeightEntry.jsx:149-157 | Any other choice orders by first name, then last. |
| WeightEntry.FindByCardName | src/components/WeightEntry.jsx:82-84 | The first wrestler whose card name is the name, or none when no wrestler has it. |
| WeightEntry.EntryForm.constructor | src/components/WeightEntry.jsx:10-24 | The form starts empty on the "before" side, with the stored hide setting and map. |
| WeightEntry.EntryForm.OnActivity | src/components/WeightEntry.jsx:42-46 | Activity records its time and changes nothing else. |
| WeightEntry.EntryForm.CheckInactivity | src/components/WeightEntry.jsx:51-56 | The map is emptied exactly when it has entries and at least 15 minutes have passed since the last activity. Nothing else changes. |
| WeightEntry.EntryForm.ChooseWrestler | src/components/WeightEntry.jsx:91-95 | The selection becomes the card's "first last" and the side becomes the one chosen. |
| WeightEntry.EntryForm.Submit | src/components/WeightEntry.jsx:65-89 | With no selection or weight nothing is sent and nothing changes. Otherwise the split names, the rewritten date, the weight and the side are sent, and the weight is cleared. After a saved weigh-in with hiding on, the found wrestler's id is mapped to the time and other entries are kept. |
| WeightEntry.ChosenIsFound | src/components/WeightEntry.jsx:82-95 | Choosing a wrestler and submitting looks up a wrestler with the same card name, at or before its place. A spaceless first name is sent split exactly. |
| WeightEntry.HiddenAfterSubmit | src/components/WeightEntry.jsx:82-87 | After a recorded weigh-in the wrestler's card disappears while the filter is blank. Every other card keeps its visibility. |
| WeightEntry.ClearedShowsAll | src/components/WeightEntry.jsx:51-56 | Once the map is cleared every card is visible. |
| GraphView.QueryString | src/components/GraphView.jsx:13 | An empty name gives no query string. Otherwise it is "?wrestler=" and the encoded name. |
| GraphView.QueryReachesHandler | src/components/GraphView.jsx:13-14 | The history handler receives exactly the typed name, and the query adds no other parameter or fragment. |
| GraphView.ChartData | src/components/GraphView.jsx:23-31 | The points are the per-day fold of the loaded records. Each point's day comes from a record, and no day appears twice. |
| Uri.DecodeEncode | src/components/GraphView.jsx:13 | Percent-decoding `encodeURIComponent`'s output, with UTF-8, gives back the text. |
| Uri.EncodeSafe | src/components/GraphView.jsx:13 | The encoding contains no `/`, `?`, `&`, `#`, `=` or space. |
| LegacyApp.Login | src/App.js:99-106 | The app unlocks exactly for "Lennard". Any other password shows "Incorrect password". |
| LegacyApp.Autocomplete | src/App.js:108-119 | Non-empty input shows the matching wrestlers in order. Empty input hides the list and keeps the old one. |
| LegacyApp.AutocompleteMembers | src/App.js:111-113 | A suggestion is a roster wrestler whose name contains the input ignoring case, as often as the roster holds it. |
| LegacyApp.MatchIgnoresCase | src/App.js:112 | The match does not depend on the case of the input. |
| LegacyApp.FindByName | src/App.js:145 | The first roster row whose name is exactly the selection, or none exactly when none is. |
| LegacyApp.SubmitWeight | src/App.js:126-165 | A missing name or weight stops with "Please enter wrestler name and weight". A name not on the roster stops with "Wrestler not found. Please select from the list.". Otherwise it posts the roster row's class, names and sex, the weight, the side, and the entered date or today's month/day/year. |
| LegacyApp.SearchWeights | src/App.js:231-241 | An empty query gives nothing. Otherwise the matching rows in order. |
| LegacyApp.SearchMembers | src/App.js:237-239 | A row is a result exactly when its name contains the query ignoring case. |
| LegacyApp.RangeInclusive | src/App.js:244-249 | A record is charted exactly when its date and both ends of the range parse and its time lies in the range, both ends included. |
| LegacyApp.CombinedMembers | src/App.js:251-265 | The combined points are the per-day points of the in-range records, keyed by the date's first ten characters. |
| LegacyApp.CombinedPoints | src/App.js:251-265 | The combined points are the per-day points of the in-range records, rearranged, sorted by the time of their day. |
| LegacyApp.CombinedOrder | src/App.js:265 | Of two combined points whose days parse, the earlier one's time is no later. |
| LegacyApp.GraphData | src/App.js:243-289 | Without the single-line mode, the combined points. With it, their expansion. |
| LegacyApp.ExpandLine | src/App.js:267-285 | The loop computes the expansion: for each entry its before point, then its after point when it has one. |
| LegacyApp.LineLength | src/App.js:267-285 | The expansion has one point per entry and one more per after weight. |
| LegacyApp.LineLayout | src/App.js:270-283 | Entry i's before point sits at i plus the number of earlier after weights, and its after point right behind it. |
| QuickEntry.FindAsWritten | src/components/QuickWeightEntry.jsx:25-28 | The `find` as written takes the first school whose name or `code` matches, and throws on an absent key. |
| QuickEntry.ListingLookupAsWritten | src/components/QuickWeightEntry.jsx:24-33 | Over the school listing only the first school's name can be found. Anything else throws. |
| QuickEntry.SecondSchoolUnreachable | src/components/QuickWeightEntry.jsx:25-28 | With two schools, the second is reached neither by its name nor by its code. |
| QuickEntry.FindSchool | src/components/QuickWeightEntry.jsx:25-28 | The first school whose name or login code equals the parameter ignoring case, or none exactly when no school matches. |
| QuickEntry.FindSchoolReaches | src/components/QuickWeightEntry.jsx:25-28 | Every school is found by its name or code unless an earlier one matches. Where the lookup as written finds a school, the corrected one finds the same school. |
| QuickEntry.LoadSchool | src/components/QuickWeightEntry.jsx:24-38 | No matching school gives "School not found" and no wrestlers. Otherwise the matching school. |
| QuickEntry.Matching | src/components/QuickWeightEntry.jsx:50-53 | A wrestler is listed as often as the roster holds it when the trimmed lower-cased term occurs in its lower-cased "first last", and otherwise not at all. |
| QuickEntry.MatchingMembers | src/components/QuickWeightEntry.jsx:50-53 | A wrestler is listed exactly when the trimmed lower-cased term occurs in its lower-cased "first last". A blank term lists the roster. |
| QuickEntry.PickedStaysListed | src/components/QuickWeightEntry.jsx:50-60 | Picking a wrestler with both names keeps it in the list. |
| QuickEntry.QuickForm.constructor | src/components/QuickWeightEntry.jsx:10-14 | The form starts empty, on the "before" side, not loading. |
| QuickEntry.QuickForm.Pick | src/components/QuickWeightEntry.jsx:56-60 | Picking selects the wrestler and writes its name into the search field. |
| QuickEntry.QuickForm.Submit | src/components/QuickWeightEntry.jsx:63-95 | Without a selection or a weight only the warning shows. Otherwise the names, the parsed weight and "before" or "after" are sent, with no date. Success shows its notice and clears the weight, term and selection. A failure shows the message, or "Failed to record weight", and keeps them. |
| Routing.Rendered | src/App.jsx:68-74 | At most one page renders, and one does exactly when the menu choice is one of the five. |
| Routing.RenderedPages | src/App.jsx:68-74 | Each choice renders its own page. |
| Routing.Route | src/App.jsx:25-74 | "/admin" gives the administrator login whatever the session. A quick path gives the quick page. Otherwise no school gives the login screen, and a school gives the main layout. |
| Routing.QuickPathName | src/App.jsx:30 | `/w/` followed by a slash-free name is a quick path. |
| Routing.QuickPathTooDeep | src/App.jsx:30 | A third segment makes it not a quick path. |
| Routing.QuickPathBare | src/App.jsx:30 | `/w/` alone is not a quick path. |
| Routing.QuickLinkRoutes | src/App.jsx:56 | The header's quick-entry link for a non-empty label routes to the quick page whatever the session, and its school segment decodes to the label. |
| Session.StoredSchool | src/context/SchoolContext.jsx:7-15 | No school without a non-empty `lw_token`, or without a stored `lw_school`. Otherwise the parsed stored school. |
| Session.Mirrored | src/context/SchoolContext.jsx:17-20 | `lw_school` holds the stringified school when there is one and is absent otherwise. Every other key is unchanged. |
| Session.ReloadRestores | src/context/SchoolContext.jsx:7-20 | With a token stored, a mirrored school is what the next start reads back. |
| Session.MirrorIdempotent | src/context/SchoolContext.jsx:17-20 | Mirroring twice is mirroring once. |
| Session.SchoolSession.constructor | src/context/SchoolContext.jsx:7-15 | The provider starts from the stored school. |
| Session.SchoolSession.Mirror | src/context/SchoolContext.jsx:17-20 | The effect changes the storage to its mirrored form. |
| Session.SchoolSession.SetAuth | src/context/SchoolContext.jsx:22-26 | A non-empty token is stored, the school is stored when remembered, and it becomes the current school. |
| Session.SchoolSession.Logout | src/context/SchoolContext.jsx:28-32 | Both keys go and there is no school. |
| Session.SignInPersists | src/context/SchoolContext.jsx:17-26 | After a sign-in with a token the school is restored at the next start, remembered or not, because the effect mirrors it anyway. |
| Session.SignOutForgets | src/context/SchoolContext.jsx:28-32 | After signing out nothing is restored. |

## Left out

- Database connections, SSL and `client.end()` are not modelled. A connection failure is the `fault` parameter. Transactions, crashes between two statements and concurrent requests are not modelled.
- `jwt.sign`, `jwt.verify`, `bcrypt.hash` and `bcrypt.compare` are oracles in `Auth.Env`. The 12-hour expiry is a fixed claim passed to `sign`.
- SQL collation, `localeCompare` and `toLowerCase` are not modelled faithfully. Strings are compared by code point, and lower-casing covers ASCII letters only.
- ILIKE wildcards: a `%` or `_` inside the history filter is taken literally in `Weights.NameMatches`.
- Dates are not parsed. `new Date`, `toISOString().slice(0,10)`, `getDay` and `toLocaleDateString` are parameters: a day key, a weekday predicate, a time function and today's text.
- Reporting.PracticeDates: the local `getDay` versus UTC `toISOString` mismatch is not modelled. Weekday and day key are independent parameters.
- Reporting.PerWrestler: an invalid date (a `NaN` comparison) is given a time by the parameter. `Array.prototype.sort` with an inconsistent comparator is not modelled.
- LegacyApp.CombinedOrder: a day text that does not parse sorts last, whereas JavaScript's order for `NaN` differences is unspecified.
- LegacyApp.ExpandLine: `toISOString` of each point's time is kept as the day and an offset of 0 or 1 ms. The `RangeError` an invalid date would throw is not modelled.
- GraphView.ChartData: an invalid `new Date` in the fold would throw. The model's day key is total.
- Floating point is not modelled. Weights are integers, the mean loss is an exact real, `parseFloat` is a parameter of `QuickEntry.QuickForm.Submit`, and `toFixed(2)` is left out.
- Network calls are not modelled: `src/utils/api.js` with its retry on 401, `src/context/WrestlersContext.jsx`, the reporting screen's `updateData` loader, and the spreadsheet script the legacy client posts to. A request's outcome is a parameter (`saved`, `failure`).
- Timers, window listeners, toasts and all rendering are left out. The entry form gets the clock as a parameter.
- WrestlerList, OptionsPanel, LoginScreen, AdminLogin and AdminDashboard only carry form state to the API, and are not part of this model.
- Console logging, including the logged password in login.js, is left out.
- Session.Codec: `JSON.stringify` and `JSON.parse` are a codec pair. The lemmas that need `RoundTrips` require it; it is not proved of JSON.
- QuickEntry.LoadSchool: starts from the school listing the page receives. The page's request carries no administrator token in its body, and list-schools.js:7-9 refuses such a request with 401. That request path goes through `apiFetch` and is not modelled.
- The `wrestlers?school_id=` endpoint the quick weigh-in page loads wrestlers from is not part of this model. Its roster is a parameter.
- Request bodies are modelled by their typed reading. A JSON value of the wrong type (for example the weight class as text that WrestlerList.jsx:56 sends, or the weight as text that WeightEntry.jsx:77 sends, where the model's fields are integers) is not modelled as such. Where the database would reject it, the model only sees the failure as the `fault` parameter, which update-wrestler.js:45-47 turns into 401.
- CodeLogin.HandleCodeLogin: auth/login.js queries a `code` column, but the schema names it `login_code`. The model reads that column as the login code. Against the real schema the query would fail with 500.

## Findings

| source | as written | input that shows it | evidently intended | confidence | as-written member | corrected member |
|---|---|---|---|---|---|---|
| src/components/QuickWeightEntry.jsx:25-28 | The lookup compares `s.code.toLowerCase()`, but the school listing carries the code as `login_code`. For the first school whose name does not match, `s.code` is undefined and the call throws, so the page reports "Failed to load data". | Listing [Alpha (A1), Beta (B2)] with route parameter "Beta" or "B2" | Compare the name or `login_code`, ignoring case, and take the first match | not executed | QuickEntry.SecondSchoolUnreachable | QuickEntry.FindSchoolReaches |
