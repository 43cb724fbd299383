# FormBuilder in Dafny

FormBuilder is a web application for questionnaires. Users build
**templates**: a title, a description, a theme, an image, a public flag,
tags and an ordered list of **questions**. Other users fill a template in
as a **form**, whose **answers** hold one value per question. Templates
collect **likes** and **comments**. An administrator can list users and
change their roles, and can read platform, template and user statistics.

The server is an Express application on top of a Prisma database. Its
routes are under `server/routes/`, and it has two middlewares: `auth`
(bearer-token sign-in) and `checkRole` (role gate). A separate,
self-contained server in `server/index.js` has its own registration,
sign-in, token check and template routes. The React client keeps
question lists, answer maps and result filters in component state, and
decides which buttons a user sees.

This project models those pieces and proves what they promise:

- **Data.** The database is the class `Store.Db`, with one `map` per
  table, keyed by row id. Its invariant `Valid()` holds the schema's
  unique constraints: one like per (template, user), unique tag names and
  unique e-mail addresses.
- **Write routes.** Every route that writes is a `method` with
  `modifies db`. Its `ensures` gives the status code for each branch and
  the complete new database state.
- **Read routes.** These are functions over the tables. Each one is
  specified by membership, order and status, not by its body.
- **Fresh row ids.** The ids the database would assign are parameters,
  with `requires id !in table`.
- **Path parameters.** `Number(...)` and `parseInt(...)` of a path
  parameter become `Store.IdParam`, which is either `NotANumber` or
  `Id(n)`. `Js.ParseInt` models `parseInt` without a radix, including the
  `0x` prefix. What `Number(...)` does with empty, fractional and
  hexadecimal strings, and the rounding of very large numbers, are listed
  under "Left out".
- **String lengths.** `length` counts UTF-16 units (`Text.Utf16Length`),
  so a character beyond U+FFFF counts twice.
- **JavaScript values.** Where the code relies on the language itself,
  the semantics are written out in `Js`:
  - truthiness;
  - `parseInt`, and `String(n)` with its round trip;
  - object keys are strings;
  - `join`;
  - strict equality between numbers and strings.
- **Client logic.** Each React handler becomes a pure function, except
  where the source mutates in place or loops:
  - `toggleVisibility` flips a flag on an object that both arrays share.
    The model makes `QuestionList.Item` a class and
    `QuestionList.ToggleVisibility` a method that modifies it.
  - The loops that build the initial answer maps and apply the result
    filters are methods with loop invariants. Each is proved equal to a
    specification function, and the lemmas are stated about that
    function.

Module layout:

| Module | Role |
|---|---|
| `Wrappers`, `Text`, `Js`, `Collections`, `Counting`, `Payloads`, `Store` | Shared vocabulary: options, strings, JavaScript values, sequences, tallies, request bodies, and the database. |
| `TemplateRoutes`, `FormRoutes`, `LikeRoutes`, `TagRoutes`, `CommentRoutes`, `AdminRoutes`, `AccountRoutes`, `Analytics` | One module per route file. |
| `AuthMiddleware`, `RoleCheck` | The two middlewares. |
| `LegacyServer` | The separate, self-contained `server/index.js`. |
| The remaining modules | One per client component, plus `AnswerMaps` for the answer maps that the form pages share. |

## Model

| member | source | states |
|---|---|---|
| `Store.ParseId` | server/routes/comments.js:70 | `parseInt` of a path string is a number exactly when the string parses, and that number is the id. |
| `Store.FindUnique` | server/routes/forms.js:11-12 | `findUnique` on the integer id column refuses a key that is not a number; a number finds exactly its row, or none. |
| `Store.FindFirst` | server/routes/likes.js:25-30 | The row found matches the filter; none is found only when no row matches. |
| `Store.FindMany` | server/routes/admin.js:11-13 | A query without `orderBy` lists exactly the matching rows, in ascending id order. |
| `Store.Without` | server/routes/forms.js:77-79 | `deleteMany` keeps exactly the rows that do not match, unchanged. |
| `Store.FindManyOrderedDesc` | server/routes/forms.js:38-40 | `orderBy: desc` lists every matching row once, with keys non-increasing. |
| `Store.LargestKeyFirst` | server/routes/comments.js:22 | A row whose key is larger than every other match comes first. |
| `Js.TruthyStringIff` | server/index.js:21 | A string field is truthy exactly when it is present and non-empty. |
| `Js.ParseInt` | server/routes/comments.js:70 | `parseInt` without a radix: a string that starts with a decimal digit and not with `0x` parses to a non-negative number, and a string without digits is NaN. |
| `Js.ParseIntHexDigits` | server/routes/comments.js:70 | `0x` followed by hexadecimal digits parses to their base-16 value. |
| `Js.ParseIntHexSixteen` | server/routes/comments.js:70 | `parseInt("0x10")` is 16. |
| `Js.ParseIntHexEmpty` | server/routes/comments.js:70 | `parseInt("0x")` is NaN: no hexadecimal digit follows the prefix. |
| `Js.ParseIntDigits` | client/src/pages/FormPage.jsx:77 | `parseInt` of a run of digits is its decimal value. |
| `Js.ParseIntNegative` | client/src/pages/FormPage.jsx:77 | `parseInt` of a minus sign followed by digits is the negated value. |
| `Js.ParseIntNumToString` | client/src/pages/FormCreatePage.jsx:71-74 | An integer key survives `String` and `parseInt`: `parseInt(String(n)) === n`. |
| `Js.JoinStrings` | client/src/components/FormResultsTable.jsx:125 | `join` of string elements is the plain concatenation with the separator. |
| `Js.ToString` | server/routes/analytics.js:149 | A number used as an object key is spelled so that `parseInt` gives the number back. |
| `Text.ToLower` | server/routes/tags.js:35 | Lower-casing keeps the length and maps each capital of ASCII, Latin-1, Latin Extended-A and Cyrillic to its small letter; other characters are kept. |
| `Text.Utf16Length` | server/routes/auth.js:21 | `length` counts UTF-16 units: at least one and at most two per character. |
| `Text.Utf16LengthBasic` | server/routes/auth.js:21 | Without characters beyond U+FFFF, `length` is the number of characters. |
| `Text.ToLowerIdempotent` | server/routes/tags.js:35 | Lower-casing twice is lower-casing once. |
| `Text.TrimIdempotent` | server/routes/tags.js:30 | Trimming twice is trimming once. |
| `Text.TrimSurrounded` | server/routes/tags.js:35 | Trimming white space around a core without edge spaces gives that core. |
| `Text.TrimToLower` | server/routes/tags.js:35 | Trimming and lower-casing commute. |
| `Text.TrimCut` | server/routes/tags.js:30 | A trimmed string is a slice with only white space cut on both sides and none left at its edges. |
| `Text.ContainsIff` | server/routes/tags.js:13-14 | `includes` holds exactly when the substring occurs at some position. |
| `Text.MissingFirstChar` | client/src/pages/TemplatesPage.jsx:43-46 | A string without the search's first character does not contain the search. |
| `Text.Split` | server/middleware/auth.js:11 | `split` always gives at least one part. |
| `Text.SplitJoinRoundTrip` | server/middleware/auth.js:11 | Joining the parts of a `split` with the separator gives back the string. |
| `Text.SplitPartsFree` | server/middleware/auth.js:11 | No part of a `split` contains the separator. |
| `Text.SplitAtFirst` | server/middleware/auth.js:11-16 | Splitting at the first separator gives the text before it, followed by the parts of the rest. |
| `Collections.SpliceOut` | client/src/pages/QuestionEditor.jsx:66-67 | `splice(i, 1)` on a valid index drops that element and keeps the others in order. Otherwise the array is unchanged. |
| `Collections.ArrayMove` | client/src/components/QuestionList.jsx:60 | `arrayMove` keeps the elements as a permutation and puts the moved one at the target index. |
| `Collections.ArrayMoveBack` | client/src/components/QuestionList.jsx:60 | Moving the element back to where it came from restores the list. |
| `Counting.TallySpec` | server/routes/analytics.js:211-215 | Counting keys into an object, starting each at 0, gives each key its number of occurrences, and the counts add up to the input length. This is the intended count; `{}` differs on `Object.prototype` names (see Findings). |
| `Counting.TallyEntries` | server/routes/analytics.js:148-151 | Every tally entry counts at least one occurrence, and every input key has an entry. |
| `Counting.Tally` | server/routes/analytics.js:148-151 | The count object holds one entry per distinct key, each with a positive count. |
| `Counting.ObjectEntries` | server/routes/analytics.js:153 | `Object.entries` lists exactly the entries of the count object, each once (a permutation). |
| `Counting.ObjectEntriesOrder` | server/routes/analytics.js:153 | Array-index keys come first, each preceded only by smaller index keys; the other keys follow in the order they were added. |
| `Counting.NumericKeysAscending` | server/routes/analytics.js:153 | Keys "12" then "7" are listed "7" first. |
| `Counting.EntriesTotal` | server/routes/analytics.js:211-219 | The listed entries have distinct keys, and their counts add up to the number of keys. |
| `Counting.EntriesCount` | server/routes/analytics.js:148-155 | Every listed entry counts the occurrences of its key, at least one. |
| `Counting.EntriesComplete` | server/routes/analytics.js:148-155 | Every key counted has a listed entry. |
| `Counting.BumpAgrees` | server/routes/analytics.js:148-151 | On a key that is neither an inherited `Object.prototype` method nor `__proto__`, one step of the `reduce` over `{}` is one step of the intended count. |
| `Counting.TallyAgrees` | server/routes/analytics.js:148-151 | When no key names an `Object.prototype` member, the object `reduce(..., {})` builds is exactly the intended count object, every count a number. |
| `Counting.PrototypeKeysDiverge` | server/routes/analytics.js:148-151 | With `{}` as the accumulator, the key "constructor" is counted as the string "function Object() { [native code] }1" (and "...}11" the second time), and "__proto__" is not counted at all, where the intended count gives each of them 1. |
| `TemplateRoutes.CheckAccess` | server/routes/templates.js:15-28 | Access is granted exactly to the owner or an `ADMIN` of an existing template. A NaN id is refused as invalid and a missing row as missing. |
| `TemplateRoutes.PublicIsNotAccess` | server/routes/templates.js:22-25 | A public template is still refused to callers who are neither its owner nor an admin. |
| `TemplateRoutes.PublicTemplates` | server/routes/templates.js:30-41 | Lists exactly the public templates, each once. |
| `TemplateRoutes.OwnTemplates` | server/routes/templates.js:83-95 | Lists exactly the caller's templates, each once, newest first. |
| `TemplateRoutes.BuildQuestion` | server/routes/templates.js:61-70 | A created question belongs to the template at order `i` with the draft's type, and has a title exactly when the draft has a text or a title. |
| `TemplateRoutes.BuildQuestionDefaults` | server/routes/templates.js:61-70 | A created question is required unless the draft says `false`. It is shown in the table only when the draft says `true`. Its title is the draft's `text` when that is non-empty, and its options default to empty. |
| `TemplateRoutes.ReplaceQuestionsSpec` | server/routes/templates.js:129-159 | Replacing keeps every other template's questions. It creates one row per draft with consecutive fresh ids and leaves no other row of this template. |
| `TemplateRoutes.ReplacedQuestionsArePayload` | server/routes/templates.js:129-159 | After PUT, the template's questions are exactly the rows built from the payload. |
| `TemplateRoutes.ReplaceForgetsOld` | server/routes/templates.js:129-130 | After PUT, the template's questions do not depend on the questions it had before. |
| `TemplateRoutes.ReplacedOrderIsPayloadOrder` | server/routes/templates.js:132-159 | The i-th draft becomes the template's only question with order i. |
| `TemplateRoutes.ReplaceTagLinksSpec` | server/routes/templates.js:129-159 | Replacing keeps other templates' tag links and links this template to exactly the payload's tags. |
| `TemplateRoutes.CreateTemplate` | server/routes/templates.js:43-81 | POST creates the template owned by the caller, private unless the body says otherwise, with its tag links and questions. An unknown tag fails the whole create with 500 and nothing written. |
| `TemplateRoutes.CreatedQuestionsArePayload` | server/routes/templates.js:61-70 | A new template's questions are exactly the rows built from the drafts. |
| `TemplateRoutes.GetTemplate` | server/routes/templates.js:97-117 | GET /:id gives 200 with the row exactly when access is granted, 400 for NaN and 403 for every other refusal. |
| `TemplateRoutes.MissingTemplateIsForbidden` | server/routes/templates.js:101-102 | A missing template answers 403, not 404. |
| `TemplateRoutes.UpdateKeepsOwner` | server/routes/templates.js:132-159 | An update never changes the owner or the creation date, and an empty body changes nothing. |
| `TemplateRoutes.UpdateTemplate` | server/routes/templates.js:119-166 | PUT gives 400 for NaN and 403 for refused access, and then writes nothing. With access, it replaces the questions and tag links and updates the row. If a tag is unknown, it answers 500 after the deletes have happened. |
| `TemplateRoutes.DeleteTemplate` | server/routes/templates.js:168-182 | DELETE removes exactly the row when access is granted, gives 400 for NaN and 403 otherwise, and changes nothing else. |
| `FormRoutes.CheckForm` | server/routes/forms.js:64-76 | NaN makes the lookup fail. A missing form is 404. The author or an `ADMIN` is allowed; anyone else is denied. |
| `FormRoutes.MissingBeforeAccess` | server/routes/forms.js:69 | A missing form is reported the same way to every caller. |
| `FormRoutes.GetFormByKey` | server/routes/forms.js:7-32 | With a number passed to `findUnique`, GET /:id is the converted route. Any other key makes the lookup fail with 500. |
| `FormRoutes.GetFormAsWritten` | server/routes/forms.js:11-12 | As written, the path string goes to `findUnique`, so every request answers 500 with no form. |
| `FormRoutes.GetForm` | server/routes/forms.js:7-32 | With the id converted, GET /:id returns the form exactly to its author or an admin, and every other outcome carries its refusal status. |
| `FormRoutes.AuthorCannotReadOwnForm` | server/routes/forms.js:11-12 | As written, the raw string id makes the query fail with 500 even for the author. With the id converted, the author gets the form. |
| `FormRoutes.OwnForms` | server/routes/forms.js:34-56 | Lists exactly the caller's forms, each once, newest first. |
| `FormRoutes.AnswerRowsSpec` | server/routes/forms.js:84-87 | The i-th payload answer becomes the row with id base + i under this form, and no other row is created. |
| `FormRoutes.DeleteAnswersOfSpec` | server/routes/forms.js:77-79 | Deleting a form's answers leaves it none and keeps every other row unchanged. |
| `FormRoutes.ReplacedAnswersArePayload` | server/routes/forms.js:77-91 | After PUT, the form's answers are exactly the payload's. |
| `FormRoutes.ReplaceKeepsOtherForms` | server/routes/forms.js:77-91 | PUT does not touch any other form's answers. |
| `FormRoutes.ReplaceDropsUnsubmitted` | server/routes/forms.js:77-91 | After PUT, the form answers a question only if the payload does. |
| `FormRoutes.UpdateForm` | server/routes/forms.js:58-98 | A refused check writes nothing. With access and a valid payload, the answers are replaced. Otherwise it gives 500, with the old answers already deleted. |
| `FormRoutes.DeleteForm` | server/routes/forms.js:99-123 | DELETE removes the form and its answers exactly when the check allows it. Otherwise it writes nothing and answers the refusal status. |
| `FormRoutes.CreateForm` | server/routes/forms.js:124-147 | POST gives 201 exactly when the answers are present, the template exists and every answer's question exists. It then creates the form authored by the caller and its answers. Otherwise it gives 500 and writes nothing. |
| `FormRoutes.CreatedAnswersArePayload` | server/routes/forms.js:133-138 | A new form's answers are exactly the payload's. |
| `LikeRoutes.FindLike` | server/routes/likes.js:25-30 | A like row is found exactly when the (template, user) pair has one. |
| `LikeRoutes.Toggled` | server/routes/likes.js:32-48 | A toggle creates no row other than the fresh one and changes no remaining row. |
| `LikeRoutes.ToggleFlipsPair` | server/routes/likes.js:32-48 | A toggle adds the pair when it is absent and removes it when it is present, touches no other pair, and keeps pairs unique. |
| `LikeRoutes.DoubleToggleRestores` | server/routes/likes.js:32-48 | Two toggles by the same user give back the original set of likes. |
| `LikeRoutes.CountAfterDelete` | server/routes/likes.js:34-36 | Deleting a row lowers only its own template's count, by one. |
| `LikeRoutes.CountAfterCreate` | server/routes/likes.js:38-47 | Creating a row raises only its own template's count, by one. |
| `LikeRoutes.ToggleCount` | server/routes/likes.js:32-51 | A toggle changes the template's count by +1 for a new like and -1 for a removed one, and leaves every other template's count alone. |
| `LikeRoutes.ToggleLike` | server/routes/likes.js:8-61 | Gives 400 for NaN and 404 for an unknown template, with nothing written. Answers 200 exactly for a numeric id of an existing template, and then it toggles. `liked` is true exactly when no like existed before, and `count` is the count after the toggle. |
| `LikeRoutes.CountRoute` | server/routes/likes.js:62-78 | Gives 400 exactly for NaN, and for a number gives 200 with the number of like rows on the template. |
| `LikeRoutes.StatusRoute` | server/routes/likes.js:79-99 | Gives 400 for NaN, otherwise whether a like row of the caller on the template exists. |
| `LikeRoutes.StatusAfterToggle` | server/routes/likes.js:53-56 | After a toggle, the status route reports what the toggle answered in `liked`. |
| `TagRoutes.Take` | server/routes/tags.js:17 | `take: n` keeps the first n rows, and a negative n keeps the last -n rows. |
| `TagRoutes.ListTags` | server/routes/tags.js:6-25 | A non-numeric limit fails with 500. Otherwise it returns distinct matching tags by non-increasing count, at most the limit. A matching tag is left out only when the list is full, and then it counts no more than any listed tag (for a negative limit, which keeps the tail, no less). |
| `TagRoutes.TakeKeeps` | server/routes/tags.js:10-19 | A `take` of the ordered matches keeps them matching, distinct and ordered, and drops rows only when full. |
| `TagRoutes.TakeOffset` | server/routes/tags.js:17 | A take is a contiguous slice of the ordered matches. |
| `TagRoutes.TakeMembers` | server/routes/tags.js:10-17 | Every tag a take keeps matches the search. |
| `TagRoutes.TakeOrdered` | server/routes/tags.js:17-18 | A take keeps the rows distinct and by non-increasing count. |
| `TagRoutes.TakeFull` | server/routes/tags.js:17 | A row is dropped only when the take is full. |
| `TagRoutes.TakeTop` | server/routes/tags.js:17-18 | With `orderBy: { count: 'desc' }`, a row a non-negative take drops counts no more than any kept row, and one a negative take drops counts no less. |
| `TagRoutes.EmptySearchMatchesAll` | server/routes/tags.js:7 | The default empty search matches every tag. |
| `TagRoutes.ValidTagName` | server/routes/tags.js:30 | A name passes exactly when it is present and its trimmed form is at least two UTF-16 units long; the empty-name test is then implied. |
| `TagRoutes.AstralTagNameValid` | server/routes/tags.js:30 | A single character beyond U+FFFF is two units long, so it is a valid name. |
| `TagRoutes.TagName` | server/routes/tags.js:35 | The normalised name is lower-case. |
| `TagRoutes.TagNameNormal` | server/routes/tags.js:35 | The stored name is trimmed and lower-case, and as long as the trimmed input under the modelled case map. |
| `TagRoutes.NameVariants` | server/routes/tags.js:35 | Inputs that differ only in case or in surrounding white space name the same tag. |
| `TagRoutes.FindTag` | server/routes/tags.js:36-38 | A tag is found exactly when one has that name. |
| `TagRoutes.UpsertSpec` | server/routes/tags.js:40-50 | The upsert adds one to the name's count (from 0 when new), keeps names unique, and leaves every other tag unchanged. |
| `TagRoutes.UpsertUnique` | server/routes/tags.js:40-50 | The upsert keeps tag names unique. |
| `TagRoutes.UpsertCount` | server/routes/tags.js:44-48 | The name's count goes up by exactly one. |
| `TagRoutes.UpsertOtherCount` | server/routes/tags.js:40-50 | No other name's count changes. |
| `TagRoutes.UpdateTag` | server/routes/tags.js:27-57 | A missing name, or one shorter than two characters once trimmed, gives 400 with nothing written. Otherwise the normalised name's count goes up by one and the row is returned. |
| `TagRoutes.UpsertTag` | server/routes/tags.js:36-50 | Find, then update or create, leaves the upserted table and returns the row with the new count. |
| `CommentRoutes.ListComments` | server/routes/comments.js:9-29 | Gives 500 for a NaN id. Otherwise it lists exactly the template's comments, each once, newest first. |
| `CommentRoutes.CommentTargetOfId` | server/routes/comments.js:42 | `parseInt` of a numeric id, or of its decimal string, is that id. |
| `CommentRoutes.PostTarget` | server/routes/comments.js:35-44 | A comment is created exactly when both fields are truthy, the text is a string, the id parses, and the template exists. |
| `CommentRoutes.CreateComment` | server/routes/comments.js:31-65 | Gives 400 unless both fields are truthy. Otherwise it gives 201 with the new comment by the caller, or 500 with nothing written. |
| `CommentRoutes.DeleteComment` | server/routes/comments.js:67-94 | Gives 500 for NaN, 404 for a missing comment, and 403 unless the caller is the author or an `ADMIN`. Otherwise it removes exactly that comment. |
| `CommentRoutes.ListAfterDelete` | server/routes/comments.js:9-29 | After a deletion, the listing is the same less the deleted comment. |
| `CommentRoutes.NewestCommentListedFirst` | server/routes/comments.js:22 | A new comment that is the newest on its template is listed first. |
| `AdminRoutes.Summaries` | server/routes/admin.js:11-13 | One summary per id, each the selected fields of that user. |
| `AdminRoutes.ListUsers` | server/routes/admin.js:9-19 | One summary per user, in id order. |
| `AdminRoutes.EveryUserListed` | server/routes/admin.js:11-13 | Every user appears in the listing. |
| `AdminRoutes.ChangeRole` | server/routes/admin.js:21-45 | Gives 400 unless the role is one of the five assignable strings, then 500 for NaN and 404 for a missing user. Otherwise only that user's role changes. |
| `AdminRoutes.AssignedRoleIsNeverAdmin` | server/routes/admin.js:25 | No assignable role is the upper-case `ADMIN` that the other routes compare against. |
| `AdminRoutes.AdminGateRefusesAdmin` | server/routes/admin.js:9 | A caller whose role is `ADMIN` is refused by `checkRole(['admin'])`. |
| `AdminRoutes.AdminGateOnGet` | server/routes/admin.js:9 | On a GET, the gate passes exactly an unblocked caller with role `admin`. |
| `RoleCheck.MakeCheckRole` | server/middleware/checkRole.js:1-4 | The factory accepts exactly an array, and anything else throws. |
| `RoleCheck.CheckRole` | server/middleware/checkRole.js:6-56 | 401 exactly when there is no user. A caller who passes is unblocked and, on a non-GET request, has a fresh session. |
| `RoleCheck.SelfActionNeverHolds` | server/middleware/checkRole.js:17 | The self-action test compares a string with a number, so it never holds. |
| `RoleCheck.CheckRolePasses` | server/middleware/checkRole.js:8-48 | A request passes exactly for an unblocked user with a listed role and, unless it is a GET, a session at most 24 hours old. |
| `RoleCheck.BlockedIsForbidden` | server/middleware/checkRole.js:11-13 | A blocked user gets 403 whatever the roles. |
| `RoleCheck.FreshnessBoundary` | server/middleware/checkRole.js:34-46 | A session exactly 24 hours old passes a write, and one millisecond more is refused. |
| `RoleCheck.GetSkipsFreshness` | server/middleware/checkRole.js:34 | A GET skips the freshness check. |
| `RoleCheck.LowerCaseAdminListRefusesAdmin` | server/middleware/checkRole.js:15 | `checkRole(['admin'])` refuses a caller whose role is `ADMIN`. |
| `AuthMiddleware.BearerToken` | server/middleware/auth.js:6-16 | A header is accepted exactly when it splits on spaces into two parts, the first `Bearer`, and the token is the second part. |
| `AuthMiddleware.BearerTokenShape` | server/middleware/auth.js:11-16 | Accepted headers are exactly `Bearer `, one space, and a token with no spaces, and that token is the one used. |
| `AuthMiddleware.Authenticate` | server/middleware/auth.js:5-58 | A caller is authenticated exactly when the token verifies and its claims hold an id and the expected issuer, for an existing unblocked user. A malformed header, an expired token and an invalid token are 401; any other verification error is 500, and so are valid claims whose id is not a number. |
| `AuthMiddleware.OnlyTheTokenIsVerified` | server/middleware/auth.js:16-19 | Two verifiers that agree on the token give the same verdict. |
| `AuthMiddleware.BadClaimsForbidden` | server/middleware/auth.js:20-21 | Claims without an id or issuer, or from another issuer, give 403. |
| `AuthMiddleware.UnknownOrBlockedForbidden` | server/middleware/auth.js:33-39 | A valid token for an unknown or blocked user gives 403. |
| `AuthMiddleware.RequireAuth` | server/middleware/auth.js:41-46 | The verdict does not depend on the `lastActive` write. When the write succeeds, only the caller's `lastActive` changes. |
| `AccountRoutes.PatternParts` | server/routes/auth.js:10 | An address that matches the pattern has no white space, exactly one `@`, and a `.` after it with text on both sides. |
| `AccountRoutes.RuleParts` | server/routes/auth.js:10 | Cutting at the `@` and at a later `.` gives the pattern's three runs. |
| `AccountRoutes.EmailPatternIff` | server/routes/auth.js:10 | The registration pattern accepts exactly the addresses that rule describes. |
| `AccountRoutes.PasswordRejected` | server/routes/auth.js:21 | A string password is rejected exactly when it is shorter than 6 UTF-16 units, so never when it has 6 characters. A missing password is rejected. |
| `AccountRoutes.AstralPasswordAccepted` | server/routes/auth.js:21 | Three characters beyond U+FFFF make six units, and the password is accepted. |
| `AccountRoutes.FindUserByEmail` | server/routes/auth.js:25 | A user is found exactly when one has that address. |
| `AccountRoutes.Register` | server/routes/auth.js:13-41 | Gives 400 for a bad address or password, then 409 for a taken address. Otherwise it gives 201 with exactly one new user holding the hash. Every failure writes nothing. |
| `AccountRoutes.Login` | server/routes/auth.js:43-67 | Sign-in succeeds exactly for a known address with a matching password. An unknown address and a wrong password both give 400. |
| `AccountRoutes.LoginFailuresAgree` | server/routes/auth.js:48-51 | An unknown address and a wrong password give the same answer. |
| `AccountRoutes.RegisteredUserCanLogIn` | server/routes/auth.js:31-51 | A user who has just registered can sign in with the same address and password. |
| `AccountRoutes.Updated` | server/routes/auth.js:72-91 | A profile update never changes the address, role, block flag or `lastActive`. |
| `AccountRoutes.UpdatedIdentityAndIdempotent` | server/routes/auth.js:72-91 | An empty update changes nothing, and applying the same update twice equals applying it once. |
| `AccountRoutes.UpdateProfile` | server/routes/auth.js:69-98 | Gives 400 for a short password or when no field is truthy, and 500 for a missing row. Otherwise only the caller's row changes, to the update. |
| `AccountRoutes.DeleteProfile` | server/routes/auth.js:100-111 | Removes exactly the caller's row, or gives 500 with nothing written. |
| `Analytics.ActiveUsers` | server/routes/analytics.js:23-29 | The active-user count never exceeds the number of users. |
| `Analytics.SubsetCard` | server/routes/analytics.js:23-29 | Counting a subset of the users never gives more than the users. |
| `Analytics.PopularTemplates` | server/routes/analytics.js:30-38 | At most five templates are listed, each an existing one. |
| `Analytics.PopularTemplatesMembers` | server/routes/analytics.js:30-38 | No template is listed twice. |
| `Analytics.PopularTemplatesOrdered` | server/routes/analytics.js:32 | Popular templates come by non-increasing form count. |
| `Analytics.PopularTemplatesComplete` | server/routes/analytics.js:31-32 | A template is left out only when five are listed, each with at least as many forms. |
| `Analytics.RecentFormTimes` | server/routes/analytics.js:39-46 | Only forms from the last seven days are fetched. |
| `Analytics.CountDays` | server/routes/analytics.js:61-67 | A day range never counts more forms than were fetched. |
| `Analytics.CountDaysAppend` | server/routes/analytics.js:62-67 | One more form adds one to a range exactly when its day falls in the range. |
| `Analytics.CountDaysSplit` | server/routes/analytics.js:61-67 | The counts of adjacent day ranges add up. |
| `Analytics.CountDaysEmptyRange` | server/routes/analytics.js:64 | An empty range counts nothing. |
| `Analytics.DailyForms` | server/routes/analytics.js:50-73 | Seven buckets, oldest first, ending today, each holding the number of forms created on its day. |
| `Analytics.DailyTotal` | server/routes/analytics.js:61-73 | The buckets add up to the forms on those days, which is never more than were fetched. |
| `Analytics.OutsideWindowIgnored` | server/routes/analytics.js:64 | A form dated outside the seven buckets is counted in none. |
| `Analytics.StatsGateOnGet` | server/routes/analytics.js:10 | The statistics gate passes exactly an unblocked `ADMIN` on a GET. |
| `Analytics.AnswerIds` | server/routes/analytics.js:118-128 | The included `answers` of a question are every answer row to it, each once, in ascending id order. |
| `Analytics.AnswerValues` | server/routes/analytics.js:118-128 | Lists the value of every answer to that question, one per answer, in answer id order: position i holds the value of the i-th answer id. |
| `Analytics.CheckboxStatsOf` | server/routes/analytics.js:141-146 | `checkedCount` is the number of values equal to the string `'true'`, out of `total` values. |
| `Analytics.ValueKeys` | server/routes/analytics.js:148-151 | Each value is counted under its string form. |
| `Analytics.PopularOf` | server/routes/analytics.js:147-156 | At most five entries, each taken from the `Object.entries` listing of the counts. |
| `Analytics.PopularOfSpec` | server/routes/analytics.js:147-156 | At most five distinct answers, by non-increasing count, each with its true number of occurrences. |
| `Analytics.PopularOfComplete` | server/routes/analytics.js:153-155 | An answer is left out only when five answers at least as frequent are listed. |
| `Analytics.QuestionReports` | server/routes/analytics.js:127-165 | One report per question, in the given order. |
| `Analytics.TemplateAnalytics` | server/routes/analytics.js:92-191 | Gives 500 for NaN, 404 for a missing template, and 403 unless the caller is the owner or an `ADMIN`. Otherwise it returns the template's report. |
| `Analytics.TemplateReportEntry` | server/routes/analytics.js:118-165 | Each entry is a question of the template, with the statistics for its type over its answers. |
| `Analytics.TemplateReportOrdered` | server/routes/analytics.js:118-125 | Entries come in question id order, so no question has two. |
| `Analytics.TemplateReportCoversQuestions` | server/routes/analytics.js:118-127 | Every question of the template has an entry. |
| `Analytics.UserForms` | server/routes/analytics.js:198-208 | Exactly the forms the user authored. |
| `Analytics.Timeline` | server/routes/analytics.js:220-223 | One timeline entry per form. |
| `Analytics.UserTitles` | server/routes/analytics.js:211-213 | One title key per form. |
| `Analytics.UserAnalytics` | server/routes/analytics.js:194-230 | Answers 200 exactly when the id is a number and every one of the user's forms has its template row, and 500 otherwise (NaN fails the query, a missing template throws on `form.template.title`). On 200 the total is the user's number of forms, the timeline has one entry per form, and `formsByTemplate` is the count object of the titles in property order. |
| `Analytics.FormsByTemplateSum` | server/routes/analytics.js:211-219 | The per-title counts are positive and add up to the total. |
| `LegacyServer.Register` | server/index.js:19-31 | Gives 201 exactly when name, address and password are all truthy and the address is free. It then creates one user with the hash and the default role `user`. Otherwise it gives 400 with nothing written. |
| `LegacyServer.FindByEmail` | server/index.js:39 | The lowest-id user with the address, if any. |
| `LegacyServer.Login` | server/index.js:33-48 | Gives 400 unless both fields are truthy, 401 for an unknown address or a wrong password alike, and otherwise that user. |
| `LegacyServer.BearerSlice` | server/index.js:51-55 | A truthy header starting with `Bearer ` yields the rest of it as the token. |
| `LegacyServer.Authenticate` | server/index.js:50-65 | A caller is signed in exactly when the header yields a token the verifier accepts, whose id names an existing user. |
| `LegacyServer.HeaderChecksAgreeOnPlainTokens` | server/index.js:51-55 | This server and the shared middleware take the same token when it has no spaces. A token with a space passes here and is refused there. |
| `LegacyServer.PublicTemplates` | server/index.js:67-75 | Exactly the public templates. |
| `LegacyServer.CreateTemplate` | server/index.js:76-92 | The new template is owned by the caller and public unless the body says `false`. A falsy image URL is stored as null, and the topic goes into the theme. Only that row is added. |
| `QuestionEditor.ChangeText` | client/src/pages/QuestionEditor.jsx:38-40 | Only the text changes, to the new value. |
| `QuestionEditor.ChangeType` | client/src/pages/QuestionEditor.jsx:42-50 | The type changes. Options are kept for a choice type and cleared otherwise, and nothing else changes. |
| `QuestionEditor.ChangeOption` | client/src/pages/QuestionEditor.jsx:52-56 | Only option i changes, to the value. |
| `QuestionEditor.AddOption` | client/src/pages/QuestionEditor.jsx:58-63 | One empty option is appended and the others are kept. |
| `QuestionEditor.RemoveOption` | client/src/pages/QuestionEditor.jsx:65-69 | The options are the old ones with option i spliced out, and nothing else changes. |
| `QuestionEditor.RemoveAddedOption` | client/src/pages/QuestionEditor.jsx:58-69 | Removing the option just added restores the options. |
| `QuestionEditor.RemoveOptionKeepsOthers` | client/src/pages/QuestionEditor.jsx:65-69 | Removing one option keeps the others in order, one fewer. |
| `QuestionEditor.ChangeTypeIdempotent` | client/src/pages/QuestionEditor.jsx:42-50 | Choosing the same type twice equals choosing it once. |
| `QuestionList.IndexOfId` | client/src/components/QuestionList.jsx:58-59 | `findIndex` gives the first index with that id. |
| `QuestionList.DragEnd` | client/src/components/QuestionList.jsx:54-65 | No change when the ids are equal. Otherwise a permutation with the dragged item at the target's old index and the rest in order. |
| `QuestionList.DragBackRestores` | client/src/components/QuestionList.jsx:54-65 | Dragging the item back restores the list. |
| `QuestionList.Delete` | client/src/components/QuestionList.jsx:75-80 | Drops exactly the item at the index, keeping the others in order. An index out of range changes nothing. |
| `QuestionList.ToggleVisibility` | client/src/components/QuestionList.jsx:67-73 | The new array holds the same objects. Only the chosen item's flag flips, so the old array sees the change too. |
| `TemplateDrafts.AddQuestion` | client/src/pages/TemplateEditor.jsx:91-102 | Appends one blank required TEXT question, hidden from the table, and keeps the others. |
| `TemplateDrafts.UpdateQuestion` | client/src/pages/TemplateEditor.jsx:104-108 | Only question i is replaced. |
| `TemplateDrafts.RemoveQuestion` | client/src/pages/TemplateEditor.jsx:110-114 | Drops exactly question i, keeping the others in order. |
| `TemplateDrafts.RemoveAddedQuestion` | client/src/pages/CreateTemplateForm.jsx:42-65 | Removing the question just added restores the list. |
| `TemplateDrafts.Submitted` | client/src/pages/TemplateEditor.jsx:140-143 | A choice question is sent as it is. Any other question is sent with its options emptied. |
| `TemplateDrafts.SubmittedQuestions` | client/src/pages/TemplateEditor.jsx:140-143 | One submitted question per draft. |
| `TemplateDrafts.OnFinish` | client/src/pages/TemplateEditor.jsx:131-144 | Nothing is sent exactly when there are no questions. Otherwise it sends the form values with the image URL and the submitted questions. |
| `TemplateDrafts.OnCreateFinish` | client/src/pages/CreateTemplateForm.jsx:73-102 | Sends what `OnFinish` sends. Questions and image are reset only after a sent create succeeds. |
| `TemplateDrafts.SubmittedIdempotent` | client/src/pages/TemplateEditor.jsx:140-143 | Submitting twice equals submitting once. |
| `TemplateDrafts.TypeChangeAlreadySubmittable` | client/src/pages/QuestionEditor.jsx:42-50 | A question whose type was just changed is already in submitted form. |
| `TemplateDrafts.StoredOptionsOnlyForChoices` | client/src/pages/CreateTemplateForm.jsx:82-85 | The server stores options only for choice questions, with type and order kept. |
| `ResultsTable.FindAnswer` | client/src/components/FormResultsTable.jsx:51 | The answer to the question, if any. |
| `ResultsTable.Passes` | client/src/components/FormResultsTable.jsx:52 | A form without an answer to the question never passes, and the empty text passes every answered form. |
| `ResultsTable.PassesKeysEach` | client/src/components/FormResultsTable.jsx:48-55 | Passing the filters on a key list means passing each of them. |
| `ResultsTable.PassesKeysAll` | client/src/components/FormResultsTable.jsx:48-55 | Passing the filters on the keys in order equals passing every filter. |
| `ResultsTable.PassesKeysStep` | client/src/components/FormResultsTable.jsx:48-55 | One more key adds one more condition. |
| `ResultsTable.FilterStepActive` | client/src/components/FormResultsTable.jsx:49-53 | An active filter narrows the running result by its condition. |
| `ResultsTable.FilterStepInactive` | client/src/components/FormResultsTable.jsx:49 | An empty filter leaves the running result alone. |
| `ResultsTable.ApplyFilters` | client/src/components/FormResultsTable.jsx:47-55 | The loop leaves exactly the forms that pass every active filter. |
| `ResultsTable.FilterChange` | client/src/components/FormResultsTable.jsx:42-58 | The new filter replaces the old value for that question, and the shown forms are those passing the new filters. |
| `ResultsTable.FilteredIsSubsequence` | client/src/components/FormResultsTable.jsx:47-55 | Filtering keeps the forms' order and invents none. |
| `ResultsTable.FilteredMembers` | client/src/components/FormResultsTable.jsx:49-53 | A form is shown exactly when, for every active filter, it has an answer to that question containing the filter text, ignoring case. |
| `ResultsTable.NoActiveFilterShowsAll` | client/src/components/FormResultsTable.jsx:49 | With no active filter, every form is shown. |
| `ResultsTable.NewValueReplacesOld` | client/src/components/FormResultsTable.jsx:43 | The question's old filter no longer constrains. |
| `ResultsTable.ClearingAFilter` | client/src/components/FormResultsTable.jsx:43-49 | Clearing a filter to "" shows what dropping it would show. |
| `ResultsTable.CellOf` | client/src/components/FormResultsTable.jsx:120-129 | `-` exactly without an answer. A CHECKBOX cell whose value is not an array throws. Any other type shows the raw value. |
| `ResultsTable.CheckboxCellJoins` | client/src/components/FormResultsTable.jsx:124-126 | A CHECKBOX answer of strings is shown joined with `, `. |
| `AnswerMaps.KeyInjective` | client/src/pages/FormPage.jsx:95-100 | Two question ids give the same object key exactly when they are equal. |
| `AnswerMaps.ChangeAnswer` | client/src/pages/FormPage.jsx:95-100 | Sets the question's key to the value, adds no other key, and keeps every other answer. |
| `AnswerMaps.AnswersArray` | client/src/pages/FormPage.jsx:76-79 | One entry per key, each with the key parsed and its value. |
| `AnswerMaps.AnswersArrayIds` | client/src/pages/FormCreatePage.jsx:71-74 | Every parsed id is a number whose key is the entry's key. |
| `AnswerMaps.AnswersArrayDistinct` | client/src/pages/FormCreatePage.jsx:71-74 | No question id is sent twice. |
| `AnswerMaps.AnswersArrayComplete` | client/src/pages/FormPage.jsx:76-79 | Every answered question is sent with its value. |
| `FormPage.InitialAnswers` | client/src/pages/FormPage.jsx:49-53 | The loop builds the map that `LoadedMap` specifies. |
| `FormPage.KeysWritten` | client/src/pages/FormPage.jsx:50-52 | One key per loaded answer. |
| `FormPage.LoadedMapKeySet` | client/src/pages/FormPage.jsx:49-53 | The keys are exactly those of the loaded answers' questions. |
| `FormPage.LoadedMapKeys` | client/src/pages/FormPage.jsx:49-53 | A question has a key exactly when some loaded answer is to it. |
| `FormPage.LoadedMapIdKeyed` | client/src/pages/FormPage.jsx:51 | Every key is the string of a question id. |
| `FormPage.LoadedMapLatest` | client/src/pages/FormPage.jsx:50-52 | A question's value is that of its last loaded answer. |
| `FormPage.LoadedMapSize` | client/src/pages/FormPage.jsx:49-53 | With one answer per question, the map has one entry per answer. |
| `FormPage.AuthorCannotEditOwnForm` | client/src/pages/FormPage.jsx:68 | As written, a non-admin author is never offered editing, although the server lets them edit. |
| `FormPage.CanEditAsWritten` | client/src/pages/FormPage.jsx:65-70 | As written, a signed-out user is never offered editing and an ADMIN always is. |
| `FormPage.CanEdit` | client/src/pages/FormPage.jsx:65-70 | With `authorId`, a signed-out user is never offered editing and an ADMIN always is. |
| `FormPage.CanEditMatchesServer` | client/src/pages/FormPage.jsx:65-70 | With `authorId`, the page offers editing exactly to those the server allows. |
| `FormPage.FindOption` | client/src/pages/FormPage.jsx:114 | The option whose id strictly equals the value, if any. |
| `FormPage.Labels` | client/src/pages/FormPage.jsx:113-115 | One label per selected id. |
| `FormPage.RenderAnswer` | client/src/pages/FormPage.jsx:102-133 | "Question not found" exactly without a question. Text types show the value or "no answer". CHECKBOX lists, for each id in order, the text of its option when non-empty and the raw id otherwise. RADIO and SELECT show the option text or the raw value. |
| `FormPage.CheckboxShowsOptionTexts` | client/src/pages/FormPage.jsx:111-123 | Known option ids are shown as their texts, in order. |
| `FormPage.UnknownOptionShownRaw` | client/src/pages/FormPage.jsx:114 | An id without an option is shown as it is. |
| `FormCreatePage.InitialAnswers` | client/src/pages/FormCreatePage.jsx:39-47 | The loop builds the map that `BlankMap` specifies. |
| `FormCreatePage.QuestionKeys` | client/src/pages/FormCreatePage.jsx:40-46 | One key per question. |
| `FormCreatePage.BlankMapKeySet` | client/src/pages/FormCreatePage.jsx:39-47 | The keys are exactly those of the questions. |
| `FormCreatePage.BlankMapValues` | client/src/pages/FormCreatePage.jsx:41-45 | A CHECKBOX question starts as `[]` and any other question as `''`. |
| `FormCreatePage.BlankMapSize` | client/src/pages/FormCreatePage.jsx:39-47 | One entry per question, keyed by id. |
| `FormCreatePage.Submit` | client/src/pages/FormCreatePage.jsx:66-93 | Create, update, complete, in order, stopping at the first failure. It navigates to the new form only when all three succeed. |
| `FormCreatePage.CallsInOrder` | client/src/pages/FormCreatePage.jsx:77-83 | The answers are sent only second, right after the create, and the completion only third, for the same form. |
| `TemplatePage.OwnerNotOfferedEditing` | client/src/pages/TemplatePage.jsx:121 | As written, a non-admin owner is never offered editing, although the server lets them edit. |
| `TemplatePage.CanEditAsWritten` | client/src/pages/TemplatePage.jsx:121 | As written, a signed-out user is never offered editing and an ADMIN always is. |
| `TemplatePage.CanEdit` | client/src/pages/TemplatePage.jsx:121 | With `ownerId`, a signed-out user is never offered editing and an ADMIN always is. |
| `TemplatePage.CanFillForm` | client/src/pages/TemplatePage.jsx:122-123 | A signed-out user is never offered filling, and a signed-in user always is on a public template. |
| `TemplatePage.CanEditMatchesServer` | client/src/pages/TemplatePage.jsx:121 | With `ownerId`, the page offers editing exactly to those the server allows. |
| `TemplatePage.FillWithoutAllowedUsers` | client/src/pages/TemplatePage.jsx:123 | Without an allowed-users list, only signed-in users on a public template may fill it. |
| `TemplatePage.OwnerOfPrivateTemplate` | client/src/pages/TemplatePage.jsx:121-123 | The owner of a private template that does not list them can edit it but is not offered filling. |
| `TemplatePage.LoginOrFill` | client/src/pages/TemplatePage.jsx:208-218 | Never both the login button and the fill button. A public template always shows one of them. |
| `TemplatesPage.MatchAsWritten` | client/src/pages/TemplatesPage.jsx:43-46 | A title match is true. The test throws exactly when the title is missing, or when it does not match and the description is missing. |
| `TemplatesPage.SearchAsWritten` | client/src/pages/TemplatesPage.jsx:43-51 | The search throws exactly when some template's test throws. |
| `TemplatesPage.MissingDescriptionBreaksSearch` | client/src/pages/TemplatesPage.jsx:45 | A template without a description whose title does not match makes the whole search throw. |
| `TemplatesPage.Search` | client/src/pages/TemplatesPage.jsx:43-51 | Keeps the order and shows exactly the templates whose title or description contains the search, ignoring case. |
| `TemplatesPage.SearchAgreesWhereDefined` | client/src/pages/TemplatesPage.jsx:43-51 | Where the written search does not throw, it equals the intended one. |
| `TemplatesPage.EmptySearchShowsAll` | client/src/pages/TemplatesPage.jsx:43-51 | The empty search shows every template, when every template has a title. |

## Left out

- Transport, JSON shapes beyond the fields the routes read, HTTP headers other than `Authorization`, CORS, and the socket broadcasts in `server/routes/comments.js:58-60` and `:87-89`. These are I/O.
- Password hashing, JWT signing and verification, and the clock. These are parameters: `hash`, `compare`, `verify`, `now`. Token expiry is whatever `verify` reports.
- Schema defaults such as the new user's role and `createdAt` come in as parameters. The Prisma schema is not part of this model, so foreign keys and unique constraints are modelled only where a route depends on them.
- Cascading deletes: `DELETE /templates/:id` and `DELETE /profile` remove only the row. Dependent rows are left to the schema, which is not part of this model.
- A `findMany` without `orderBy` is modelled as ascending id order. The database promises no order there.
- `Object.entries` order is the `order` parameter of `AnswerMaps.AnswersArray`. Every result is stated for any order that lists each key once. The count objects of the analytics routes are listed in the language's property order (`Counting.ObjectEntries`, `Counting.ObjectEntriesOrder`).
- `Text.ToLower`: maps the capitals of ASCII, Latin-1, Latin Extended-A and Cyrillic, one character to one. JavaScript's `toLowerCase()` and the database's case-insensitive `contains` fold every Unicode capital, and can lengthen a string ("İ" becomes two characters). Over other scripts the model's tag names, tag search (`TagRoutes.ListTags`), result filters (`ResultsTable.FilteredMembers`) and template search (`TemplatesPage.Search`) keep capitals that the source folds.
- `TagRoutes.TagNameNormal`: its length equality holds under the modelled case map only. JavaScript lower-cases "İ" to two characters, so the stored name can be longer than the trimmed input.
- `Js.ParseInt`: numbers are unbounded exact integers. JavaScript numbers are doubles, so `parseInt` of a digit run above 2^53 rounds, and one of more than about 309 digits is `Infinity`. If the id columns are Prisma `Int` (32-bit; the schema is not part of this model), an id outside that range is refused with 500 where the model looks it up and answers 404. This concerns the `parseInt` of the routes in `comments.js` (lines 12, 42, 70 and 82), `forms.js` (lines 65 and 104), `tags.js` (line 17) and `analytics.js` (lines 94 and 196), and `Js.ToString`, which writes every integer in decimal where JavaScript switches to exponent notation from 10^21.
- `Store.IdParam`: holds only NaN or an integer. The grammar of `Number(...)` used in `likes.js` and `templates.js` is not modelled: `Number("")` is 0, so the source answers 404 where a NaN would give 400; `Number("0x10")` is 16; and `Number("1.5")` is a fraction, which the database's integer validation refuses with 500. Such inputs are outside the model.
- `LikeRoutes.ToggleLike`: the like creation includes `user: { select: { username: true } }`. The user rows written by the account routes carry `name`, and the schema is not part of this model, so the include is assumed valid; if the schema has no `username`, every new like fails with 500.
- `Counting.Tally`, `Counting.TallySpec`: state the intended count, the one an object without a prototype or a `Map` gives. The source counts into `{}`, so a key naming an `Object.prototype` member differs (see Findings): "constructor" and the inherited method names start from the method's source text and end up as strings, and "__proto__" is never counted. `Counting.TallyAgrees` proves the two equal when no key is such a name.
- `Analytics.PopularOf`, `Analytics.PopularOfSpec`: hold for the intended count. With an answer such as "constructor", the source's entry is a string, so `b[1] - a[1]` is NaN, the comparator is inconsistent and the order of the sorted list is up to the engine; that order is not modelled.
- `Analytics.UserAnalytics`, `Analytics.FormsByTemplateSum`: `formsByTemplate` is the intended count of the titles. A template titled "__proto__" is missing from the source's object, and one titled "constructor" gets a string, so the counts there do not add up to `totalForms`.
- Analytics:
  - the NUMBER statistics (average, min, max over floating point);
  - `activePercentage`;
  - `avgCompletionTime` (a database aggregate);
  - the `locations` list;
  - the `Date` and time-zone arithmetic behind `toISOString()`, which is modelled as days since the epoch in UTC.
- `Analytics.ActiveUsers`: states only that the count is at most the number of users. Which users count (`lastActive` within 30 days) is its definition.
- `Analytics.RecentFormTimes`: states the seven-day lower bound, not that every recent form is fetched.
- `Analytics.Timeline`, `Analytics.UserTitles`: state only the length. The entries come from one row lookup each.
- `AnswerMaps.AnswersArray`: parses the key with `parseInt` as `Js.ParseInt` does (leading white space, a sign, then `0x` and hexadecimal digits or decimal digits). Its numbers are exact, as the `Js.ParseInt` line says.
- `QuestionList.DragEnd`: requires both ids to be in the list. A drop outside any item (`over` null) throws in the source and is not modelled.
- `FormPage.RenderAnswer`: the page looks up questions in `form.template?.questions`. The server never sends that field, so in practice every answer shows "question not found". The function is modelled for a question that is given.
- `client/src/api.js` exports only plain functions and `request`. It defines none of the `formsApi`, `templatesApi` and `analyticsApi` objects that the pages import (`TemplatesPage.jsx:5`, `TemplatePage.jsx:29`, `TemplateEditor.jsx:25`, `CreateTemplateForm.jsx:20`, `FormCreatePage.jsx:18`, `FormPage.jsx:27`). As shipped, every such call throws inside its `try`: the template lists stay empty, the template page and the form page receive nothing, and the editor can neither load nor save. The client modules model the pages for the data those calls are evidently meant to deliver, and the outcomes of the calls are parameters of `FormCreatePage.Submit`.
- `Js.ToString`: spells `null` as "null". In `FormResultsTable.jsx:52`, calling `toString` on a null answer value throws instead.
- Routes and components outside the modelled core: rendering, i18n, theming, charts, image upload and CSV export.
- `server/middleware/auth.js:20-21` lacks the closing brace of the claims check, so the file does not parse. The model follows the evidently intended chain: claims, then lookup, then block check, then `next()`.
- `admin.js` gates on `'admin'` while every other check uses `'ADMIN'`, and the role it assigns is lower-case. No role passes both kinds of gate (`AdminRoutes.AdminGateRefusesAdmin`, `AdminRoutes.AssignedRoleIsNeverAdmin`). This is modelled as written.
- `PUT /profile` returns the whole row, including `passwordHash`. Response bodies are not modelled.
- `TemplateEditor.jsx` loads server questions that carry `title`, not `text`, and sends them back as drafts. The server keeps the title when `text` is empty (`TemplateRoutes.BuildQuestionDefaults`).

Where the design description and the code differ, the model follows the code:

- Answers are replaced (delete, then create), not upserted per question, and the two steps are not atomic (`FormRoutes.UpdateForm`).
- No route sets or checks a `completed` flag, and no required-question check runs.
- The server has no `allowedUsers`. Template reads are for the owner or an admin only, even for public templates (`TemplateRoutes.PublicIsNotAccess`). Creating a form checks nothing about the template beyond its existence.
- Tag counts only go up. Nothing recomputes them when a template is deleted.
- No route paginates.

## Findings

| source | as written | input that shows it | evidently intended | confidence | as-written member | corrected member |
|---|---|---|---|---|---|---|
| server/routes/forms.js:11-12 | `findUnique({ where: { id } })` with the raw path string | GET /forms/5 by the author of form 5: the string "5" does not fit the integer id column, and the route answers 500 | `parseInt(id)`, as PUT and DELETE do, and then the author gets the form | not executed | `FormRoutes.AuthorCannotReadOwnForm` | `FormRoutes.GetForm` |
| client/src/pages/FormPage.jsx:68 | `form.userId === user.id` | a non-admin author viewing their own form, once the page receives it (the missing `formsApi` export prevents that as shipped): the server sends `authorId`, `userId` is undefined, so no edit button | `form.authorId === user.id`, matching the server's check | not executed | `FormPage.AuthorCannotEditOwnForm` | `FormPage.CanEditMatchesServer` |
| client/src/pages/TemplatePage.jsx:121 | `user.id === template.authorId` | a non-admin owner viewing their own template, once the page receives it (the missing `templatesApi` export prevents that as shipped): the row has `ownerId`, `authorId` is undefined, so no edit button | `user.id === template.ownerId`, matching the server's check | not executed | `TemplatePage.OwnerNotOfferedEditing` | `TemplatePage.CanEditMatchesServer` |
| client/src/pages/TemplatesPage.jsx:43-51 | `t.description.toLowerCase()` with no null check | search "zzz" over a template titled "Survey" with no description, once the lists are filled (the missing `templatesApi` export leaves them empty as shipped): the filter throws and the page breaks | treat a missing description as not matching | not executed; assumes the description column is nullable, as the create route allows | `TemplatesPage.MissingDescriptionBreaksSearch` | `TemplatesPage.SearchAgreesWhereDefined` |
| server/routes/analytics.js:148-151 | `acc[val] = (acc[val] \|\| 0) + 1` with `{}` as the accumulator (also lines 211-215) | a text question answered once with "constructor": `acc.constructor` is the inherited `Object` function, so the count becomes the string "function Object() { [native code] }1"; an answer "__proto__" goes to the prototype setter and is not counted | one count per distinct answer, as `Object.create(null)` or a `Map` would give | not executed | `Counting.PrototypeKeysDiverge` | `Counting.TallySpec` |
