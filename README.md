# Portfolio admin routes: a Dafny model

This project models the admin content-management router of a personal
portfolio site (`Routes/admin.js`). Each handler of that router loads one
content document (`admin`, `profile`, `skills`, `projects`), changes it in
memory and writes it back. The handlers behind the `isAuthenticated`
middleware run only for a session whose `isAdmin` flag is set.

The model is split into modules that follow the code:

- `Admin` (`admin.dfy`) holds the handlers. The class `AdminPanel` holds the
  persisted document and the session flag, and each route is a method on it.
  Each state-changing route has a `modifies` clause naming the one field it
  may change. The
  `for (let i = 1; i <= 4; i++)` loop of the skills route is the method
  `CollectSkills`, proved with loop invariants.
- `Session` (`session.dfy`) holds the login gate as a two-state machine
  (anonymous or admin) over a sequence of requests. It proves exactly when a
  session is admin.
- `Content` (`content.dfy`) holds the document's records, the submitted form
  and the pure parts of the profile and skills routes. The profile route
  becomes the object spread `ReplaceProfile`.
- `Projects` (`projects.dfy`) holds the pure list operations of the project
  routes: `findIndex`, `find`, the deleting `filter`, the replacement at a
  found index, and the `Math.max(...ids) + 1` id assignment.
- `Text` (`text.dfy`) holds `split(',')`, `trim()` with ECMAScript's set of
  white-space and line-terminator characters, and the decimal rendering of an
  id in a redirect path.
- `Wrappers` (`wrappers.dfy`) holds `Option`.

How the code's inputs and outside calls are represented:

- The request body is a map from field name to text. A field the browser
  did not send is absent from the map; that is JavaScript's `undefined`.
- Route ids are integers that are already parsed. The save route's optional
  `id` is `None` when it is missing or empty, since both are falsy in
  `if (id)`. `Some(0)` stands for the truthy string `"0"`.
- `bcrypt.compare` is a function parameter `passwordMatches(password, hash)`.
- An exception that escapes a handler is the response `ServerError`, and in
  that case nothing is saved.

Where the code behaves differently from what its design intends, the model
follows the code:

- Empty tokens are kept by `split(',').map(t => t.trim())`. For example,
  `"a, ,b"` gives `["a", "", "b"]` (`Text.BlankFieldKept`).
- A profile field the form did not send is stored as `undefined`, not as the
  empty string. The same holds for `bio1`..`bio3`.
- A missing `items<i>` or `technologies` field makes `split` throw, so the
  request saves nothing. The model does not substitute an empty string.
- Logout is not gated: it destroys any session.
- Project ids can be reused. The next id is one more than the largest
  remaining id. So deleting the project with the largest id hands that id
  out again when the id just below it is still in use.
  `Projects.IdReusedAfterDelete` shows this on ids 1 and 2.
- Saving with an id that no project holds changes nothing, yet the route
  still redirects to that id's edit page.

The model does not follow the code in one case. On an empty project list,
`Math.max()` is minus infinity, so the code's new id is not 1. The handler
`Admin.AdminPanel.SaveProject` uses the corrected id 1 there. On every
non-empty list it uses the code's own id. See "## Findings".

## Model

| member | source | states |
|---|---|---|
| `Session.Authenticates` | Routes/admin.js:43-45 | only the stored username with a sent password can authenticate; given both, it authenticates exactly when the hash comparison accepts the password |
| `Session.Step` | Routes/admin.js:39-61 | only a login with valid credentials sets the flag, and such a login always does. Only a logout clears the flag, and a logout always does |
| `Session.Run` | Routes/admin.js:20-61 | the flag after a sequence of requests: unchanged by no request, cleared by a final logout, set by a final valid login. `RunIsAdmin` characterises it completely |
| `Session.WrongUsernameRejected` | Routes/admin.js:43-49 | a username other than the stored one, or none, never authenticates, whatever the password and whatever the hash comparison answers |
| `Session.RunIsAdmin` | Routes/admin.js:20-61 | after any sequence of requests, the session is admin exactly when it started admin and saw no logout, or some login with valid credentials was followed by no logout (`AdminAfter`) |
| `Session.AdminAfterLogout` | Routes/admin.js:58-61 | a logout as the last request leaves the session anonymous, whatever came before |
| `Session.AdminAfterOther` | Routes/admin.js:39-55 | a request that is not a logout keeps every earlier reason to be admin, and adds one exactly when it is itself a successful login |
| `Session.OnlyLoginGrants` | Routes/admin.js:43-48 | a session that starts anonymous and ends admin contains a login with valid credentials |
| `Admin.AdminPanel.LoginPage` | Routes/admin.js:28-36 | an admin session is redirected to `/admin`; an anonymous one gets the login form with no error |
| `Admin.AdminPanel.Login` | Routes/admin.js:39-55 | the new flag is the state machine's step on this login. Valid credentials redirect to `/admin`. A wrong username or a wrong password renders "Invalid credentials" and leaves the flag as it was. The right username without a password is a server error that leaves the flag as it was |
| `Admin.AdminPanel.Logout` | Routes/admin.js:58-61 | the flag is cleared whatever it was, as the state machine's logout step, and the answer is a redirect to `/admin/login` |
| `Admin.AdminPanel.ShowPage` | Routes/admin.js:64-147 | a gated read-only page is rendered for an admin session and is a redirect to `/admin/login` otherwise; no field changes |
| `Admin.AdminPanel.UpdateProfile` | Routes/admin.js:84-103 | an anonymous session gets a redirect to the login page and the profile is unchanged. Otherwise the profile becomes `ReplaceProfile(old profile, form)`. Only the profile field may change |
| `Content.ReplaceProfile` | Routes/admin.js:88-99 | the keys are the old keys plus the eight edited keys and `bio`. Each edited key holds the submitted value, or `undefined` when it was not sent. `bio` is exactly the three-element array `[bio1, bio2, bio3]`. Every other key keeps its old value |
| `Content.ProfileLastWriteWins` | Routes/admin.js:88-99 | a second profile submission fully overrides the first: replacing twice equals replacing once with the second form |
| `Content.ProfileIdempotent` | Routes/admin.js:88-99 | submitting the same profile form twice equals submitting it once |
| `Content.ProfileNameStored` | Routes/admin.js:88-101 | after saving a form whose `name` is "Jane", the profile's `name` is "Jane" |
| `Content.Slot` | Routes/admin.js:121-123 | the skill object pushed for slot `i` has id `i`, a category exactly when `category<i>` was sent, and one item per comma of `items<i>` plus one. The category's value and the items themselves are stated by `SkillsFromForm`, which `CollectSkills` and `UpdateSkills` prove of the saved slots |
| `Admin.CollectSkills` | Routes/admin.js:119-124 | the loop yields a list exactly when every `items1`..`items4` was sent. The list is then four slots in order: slot `i` has id `i`, the submitted `category<i>` and the comma-split, trimmed `items<i>` |
| `Admin.AdminPanel.UpdateSkills` | Routes/admin.js:115-129 | an anonymous session gets a redirect to the login page. A missing `items<i>` is a server error that leaves the skills unchanged. Otherwise the skills become exactly the four slots of the form, and the answer is a redirect to `/admin/skills?success=1` |
| `Content.SkillsFromFormUnique` | Routes/admin.js:119-126 | the saved skills depend on the form alone: two lists that both match the same form are equal, so the old skills are fully replaced |
| `Admin.AdminPanel.EditProject` | Routes/admin.js:150-163 | an admin session gets the form of the first project with that id, which carries that id. An unknown id redirects to `/admin/projects`. Nothing changes |
| `Admin.AdminPanel.SaveProject` | Routes/admin.js:166-202 | a missing `technologies` field is a server error and changes nothing. With an id, the list becomes `UpdateById` of the old list and the answer is a redirect to `/admin/projects/edit/<id>?success=1`. Without an id, the new project is appended under `NextId` and the answer is a redirect to `/admin/projects`. On a non-empty list the appended id is the code's `Math.max(...ids) + 1`; on an empty list it is 1. The saved project is `ProjectFrom(id, form)`. Unique ids stay unique. Only the project list may change |
| `Content.ProjectFrom` | Routes/admin.js:176-197 | the saved project carries the id it is saved under. `type`, `title` and `description` are as sent, or missing when not sent. `technologies` is the comma-split, trimmed field. `link` and `image` are the sent text, or the empty string when not sent |
| `Admin.AdminPanel.DeleteProject` | Routes/admin.js:205-210 | the list becomes `RemoveId(old list, id)` and the answer is a redirect to `/admin/projects`; unique ids stay unique |
| `Projects.FindIndex` | Routes/admin.js:174 | the result is -1 exactly when no project has the id. Otherwise it is a position holding the id with no earlier position holding it |
| `Projects.Find` | Routes/admin.js:152 | the result is nothing exactly when no project has the id; otherwise it is the project at `FindIndex` |
| `Projects.RemoveId` | Routes/admin.js:207 | a project is kept exactly when it was in the list and its id differs from the deleted one. The list does not grow. An unknown id leaves the list unchanged |
| `Projects.RemoveIdConcat` | Routes/admin.js:207 | deleting distributes over concatenation, so the survivors keep their relative order |
| `Projects.RemoveIdUniqueLength` | Routes/admin.js:207 | with unique ids, deleting a present id removes exactly one project, and deleting an absent id removes none |
| `Projects.RemoveIdKeepsUnique` | Routes/admin.js:207 | deleting keeps unique ids unique |
| `Projects.UpdateById` | Routes/admin.js:174-185 | the length is unchanged. An id nobody holds leaves the list unchanged. Otherwise the project at the first position holding the id is replaced and every other position keeps its value |
| `Projects.UpdateIdempotent` | Routes/admin.js:174-185 | saving the same project twice under its own id gives the same list as saving it once |
| `Projects.UpdateKeepsUnique` | Routes/admin.js:174-185 | replacing a project by one with the same id keeps unique ids unique |
| `Projects.MaxId` | Routes/admin.js:188 | on a non-empty list, the maximum is an id that occurs and is no smaller than any id |
| `Projects.NextId` | Routes/admin.js:188 | the new id exceeds every id in use. It is 1 on an empty list, and otherwise one more than an id in use |
| `Projects.AppendKeepsUnique` | Routes/admin.js:188-197 | appending a project under `NextId` keeps unique ids unique |
| `Projects.IdReusedAfterDelete` | Routes/admin.js:188 | with projects 1 and 2, deleting project 2 leaves only project 1, and the next new project receives id 2 again |
| `Projects.MaxAsWritten` | Routes/admin.js:188 | `Math.max(...ids)` is minus infinity exactly on an empty list, and otherwise a number no smaller than any id; `MaxAsWrittenAgrees` equates it with `MaxId` |
| `Projects.NextIdAsWritten` | Routes/admin.js:188 | `Math.max(...ids) + 1` is minus infinity exactly on an empty list, and otherwise exceeds every id; `NextIdAsWrittenAgrees` equates it with `NextId` |
| `Projects.MaxAsWrittenAgrees` | Routes/admin.js:188 | on a non-empty list, `Math.max(...ids)` as written is the finite `MaxId` |
| `Projects.NextIdAsWrittenAgrees` | Routes/admin.js:188 | on a non-empty list, the source's id expression equals `NextId` |
| `Projects.FirstProjectAsWritten` | Routes/admin.js:188 | on an empty list, the source's id expression is minus infinity, while `NextId` is 1 |
| `Content.OrEmpty` | Routes/admin.js:182-183 | `link \|\| ''` is the submitted text when it was sent and the empty string when it was not |
| `Text.TrimStart` | Routes/admin.js:122 | the result is no longer than the input and does not start with a trimmable character |
| `Text.TrimEnd` | Routes/admin.js:122 | the result is no longer than the input and does not end with a trimmable character |
| `Text.TrimStartIsSuffix` | Routes/admin.js:122 | dropping leading white space keeps a suffix of the input |
| `Text.TrimEndIsPrefix` | Routes/admin.js:122 | dropping trailing white space keeps a prefix of the input |
| `Text.TrimStartDrops` | Routes/admin.js:122 | every character dropped from the front is trimmable |
| `Text.TrimEndDrops` | Routes/admin.js:122 | every character dropped from the back is trimmable |
| `Text.Trim` | Routes/admin.js:122 | `trim()` is no longer than its input and neither starts nor ends with a trimmable character |
| `Text.TrimIsSlice` | Routes/admin.js:122 | the trim is the slice of the input that starts where the trimmable prefix ends |
| `Text.TrimDropsTrimmable` | Routes/admin.js:122 | only trimmable characters are dropped, before the trim and after it |
| `Text.TrimEmpty` | Routes/admin.js:122 | the trim is empty exactly when the input consists of trimmable characters only |
| `Text.TrimKeepsOut` | Routes/admin.js:122 | trimming adds no character, so a comma-free field gives a comma-free token |
| `Text.TrimmedIsFixed` | Routes/admin.js:122 | a text with no trimmable character at either end is its own trim |
| `Text.TrimIdempotent` | Routes/admin.js:122 | trimming twice is trimming once |
| `Text.Split` | Routes/admin.js:122 | `split(',')` yields one more token than there are separators |
| `Text.SplitNoSeparator` | Routes/admin.js:122 | no token contains the separator |
| `Text.JoinSplit` | Routes/admin.js:122 | joining the tokens back with the separator gives the input, so splitting loses nothing |
| `Text.SplitJoin` | Routes/admin.js:122 | splitting a join of separator-free tokens gives those tokens back, empty ones included |
| `Text.TrimAll` | Routes/admin.js:122 | `map(t => t.trim())` gives one token per token; `TrimAllAt` states that token `k` is input token `k` trimmed |
| `Text.Tokens` | Routes/admin.js:122 | `split(',').map(t => t.trim())` gives one token per comma plus one; by `TokensAt` and `TokensOfJoin`, token `k` is comma field `k` trimmed, empty ones kept |
| `Text.TrimAllAt` | Routes/admin.js:122 | `map(t => t.trim())` keeps the length, and its token `k` is input token `k` trimmed |
| `Text.TokensAt` | Routes/admin.js:122 | there is one token per comma plus one; token `k` is comma-separated field `k`, trimmed, and holds no comma |
| `Text.TokensOfJoin` | Routes/admin.js:170 | the tokens of comma-joined fields are those fields trimmed, one per field, whatever they hold |
| `Text.BlankFieldKept` | Routes/admin.js:122 | a blank field between two commas stays in place as an empty token, and an empty input gives one empty token |
| `Text.NatString` | Routes/admin.js:201 | the rendering of an id's magnitude is a non-empty string of decimal digits |
| `Text.DecimalRoundTrip` | Routes/admin.js:201 | the rendered id in the edit redirect is well formed and parses back to the same id |

## Left out

- File I/O: `getData` and `saveData` read and write `data.json` (`Routes/admin.js:8-17`). The document is the object's fields, and a handler that returns without error has saved them.
- JSON serialisation is not modelled. In the file, a key holding `undefined` disappears and minus infinity becomes `null`. The model keeps the in-memory values.
- `bcrypt.compare` is a function parameter, and its asynchrony is not modelled.
- A rejected `bcrypt.compare` (a missing password) is an unhandled rejection in the code. The model records it as the same `ServerError` as a thrown exception.
- Session expiry through the cookie's `maxAge` is not modelled. Session destruction happens only through logout.
- Presentation is not modelled: the view models passed to `res.render`, page titles, and the `success` query flags on rendered pages. Only the view name and the redirect target are kept.
- `Routes/main.js` and `Server.js` are not part of this model. They hold read-only page rendering and process bootstrapping.
- Concurrent requests, and the load-then-save race between them, are not modelled. Handlers run one at a time.
- Raw route-id strings are not modelled. The request id is an already parsed integer, used both to find the project and as its stored id. The save route converts the string twice: the loose `==` of `findIndex` converts it with `Number` (`Routes/admin.js:174`), while the stored id comes from `parseInt` (`Routes/admin.js:177`). So `id="1e1"` matches project 10 but stores id 1, which can duplicate an id. The model cannot express that, and non-numeric ids are outside it too.
- `Admin.AdminPanel.SaveProject`: on an empty project list the new project gets the corrected id 1. The code computes minus infinity there, which the JSON file stores as `null` (see "## Findings"). On a non-empty list the model's id is the code's.
- `Admin.AdminPanel.SaveProject`'s redirect renders the parsed id in decimal, where the code repeats the raw request string. The two differ only for ids written with extra characters, such as `"007"`.
- `Projects.NextId`: ids are unbounded integers, while the code's ids are JavaScript numbers (IEEE doubles), exact only below 2^53. From 2^53 on, `Math.max(...ids) + 1` (`Routes/admin.js:188`) can round back to the largest id, and then the code appends a duplicate. It does so for 2^53 itself and for every id from 2^54 on. So `NextId` exceeding every id, `Projects.AppendKeepsUnique` and the unique-ids clause of `Admin.AdminPanel.SaveProject` hold for the code only while ids stay below 2^53.
- Array-valued or non-string form fields, such as repeated field names, are not modelled. Every submitted field is text.
- Characters are Unicode scalar values, not UTF-16 code units. `trim()` is modelled over the ECMAScript white-space and line-terminator set.

## Findings

| source | as written | input that shows it | evidently intended | confidence | as-written member | corrected member |
|---|---|---|---|---|---|---|
| Routes/admin.js:188 | `Math.max(...data.projects.map(p => p.id)) + 1` | adding a project while the project list is empty: `Math.max()` is minus infinity, so the new project's id is minus infinity, which the JSON file stores as `null` | id 1 for the first project | high, not executed | `Projects.FirstProjectAsWritten` | `Projects.NextId` |
