# Diligent Pharma sign-in portal, modelled in Dafny

This project models the logic of a small sign-in portal.

- **The Express server** in `server/index.js`. An SQLite `users` table sits behind the register, login, profile, forgot-password and admin user-list routes. The server also has the `authenticateToken` middleware and seeds a default administrator at start-up.
- **The PostgreSQL `AppUser` store** in `server/database.js`. It offers four operations: `createUser`, `findUserByEmail`, `emailExists` and `getUserById`.
- **The browser's state machines**:
  - the registration form and its validator, in `Register.jsx`;
  - the screen switch and sign-in form, in `App.jsx`;
  - the password-reset screen, in `ForgotPassword.jsx`;
  - the month grid and navigation of the events calendar card, in `EventsCalendarCard.jsx`.

Every handler is a pure function, written `(state, input) -> (state', output)`.

- **Server.** The table is an immutable `Table` of rows plus the AUTOINCREMENT counter. A response is a status and a body.
- **Cryptography.** bcrypt and JSON Web Tokens are a record of four function values (`Crypto.Crypto`). The ghost predicate `Crypto.Lawful` states the only laws the proofs use:
  - a password compares equal to its own hash;
  - a signed claim set verifies to itself exactly while `now < exp`, as section 4.1.4 of RFC 7519 requires;
  - whatever verifies is unexpired;
  - a signed token is non-empty and contains no space, as the JWS compact serialisation of section 7.1 of RFC 7515 guarantees.
- **Inputs from outside.** Salts, the clock (in seconds) and the JWT secret are explicit parameters (`AuthServer.Env`).
- **Client events.** Replies to `fetch` calls are input events (`ClientTypes.Reply`), and so are timers.

The client posts to `/api/auth/...` and reads a `success` field. `server/index.js` serves `/api/...` and never sends `success`. So the two sides are modelled each on its own terms, and no lemma connects them.

Modules, one per file:

| file | module | models |
|---|---|---|
| wrappers.dfy | `Wrappers` | `Option`, `Result`, first-match search (`.get()` of a query) |
| js_text.dfy | `JsText` | JavaScript `\s`/`trim`, `indexOf`, `split(' ')`, `toLowerCase` |
| email_pattern.dfy | `EmailPattern` | the e-mail regular expression and its characterisation |
| crypto.dfy | `Crypto` | bcrypt and JWT as lawful abstract functions |
| auth_server.dfy | `AuthServer` | `server/index.js` |
| app_user_store.dfy | `AppUserStore` | `server/database.js` |
| client_types.dfy | `ClientTypes` | what the client's `fetch` calls yield |
| register_form.dfy | `RegisterForm` | `src/components/Register.jsx` |
| app_screens.dfy | `AppScreens` | `src/App.jsx` |
| forgot_password.dfy | `ForgotPasswordForm` | `src/components/ForgotPassword.jsx` |
| calendar.dfy | `Calendar` | `src/components/cards/EventsCalendarCard.jsx` |

### Behaviour of the code worth knowing

- **Losing a registration race.** The route checks the email before `await bcrypt.hash` and inserts after it. Two registrations for one email can both pass the check, and then the loser's insert hits the UNIQUE constraint. The route's `catch` answers that with 500 "Internal server error during registration", not with the "email taken" reply. `AuthServer.RegisterRace` proves this.
- **A duplicate spends an id.** `createUser` is a single `INSERT`. The SERIAL default draws an id before the UNIQUE constraint refuses a duplicate email. So the store's rows are unchanged after a duplicate, but its sequence has advanced.
- **Trailing spaces are cut, not refused.** A value longer than 255 characters is refused by its `VARCHAR(255)` column unless every character past the 255th is a space; such a value is stored cut to 255 characters, and the duplicate check compares the cut email.
- **A second admin seed spends an id.** The seed is `INSERT OR IGNORE` into an AUTOINCREMENT table. SQLite draws the next id before the UNIQUE constraint is consulted, and IGNORE drops only the row, so a seed that finds the administrator present still advances the counter. `AuthServer.SeedTwiceThenInsert` shows the first registration after two seeds getting id 3. At start-up the seed runs once on a fresh in-memory database, so `AuthServer.Boot` is unaffected.
- **The id is a 4-byte integer.** The SERIAL sequence stops at 2147483647, after which `createUser` rethrows the sequence error. `getUserById` with an id outside the `integer` range rethrows the driver's range error instead of returning `null`.

## Model

| member | source | states |
|---|---|---|
| JsText.Trim | src/components/Register.jsx:35-37 | `trim()` removes a whitespace prefix and suffix of the ECMAScript whitespace set and nothing else; the result neither starts nor ends with whitespace |
| JsText.TrimEmptyIffAllWhitespace | src/components/Register.jsx:35 | `!name.trim()` holds exactly when the name is all whitespace |
| JsText.Split | server/index.js:70 | `split(' ')` yields at least one part, no part contains a space, and joining the parts with spaces gives back the header |
| JsText.SplitJoin | server/index.js:70 | splitting a space-join of space-free parts returns exactly those parts |
| JsText.ToLowerAscii | src/components/Register.jsx:85 | lowercasing keeps the length and maps each ASCII capital to its small letter |
| EmailPattern.EmailCharacterisation | src/components/Register.jsx:42-47 | a string matches `^[^\s@]+@[^\s@]+\.[^\s@]+$` iff it has exactly one `@`, not first, no whitespace, and a `.` after the `@` that is neither the first nor the last character of the domain |
| EmailPattern.RejectsEmptyAndDotless | src/components/ForgotPassword.jsx:15-16 | "", "a@b" and "a@.b" are refused and "a@b.c" is accepted |
| Crypto.Issue | server/index.js:134-142 | the signed claims carry the user's id, email and role, `iat` = now and `exp` = `iat` + 24 h |
| Crypto.IssuedTokenLifetime | server/index.js:134-142 | under the JWT laws, an issued token verifies to its claims exactly during the 24 hours after issue |
| AuthServer.RowWithEmail | server/index.js:115 | the lookup by email finds a row iff one has that email, and the row it returns has it |
| AuthServer.RowWithId | server/index.js:226 | the lookup by id finds a row iff one has that id |
| AuthServer.RowWithEmailFinds | server/index.js:35 | with emails unique, the row holding an email is the one the lookup returns |
| AuthServer.Insert | server/index.js:33-41 | the UNIQUE email constraint refuses exactly a taken email; otherwise the row is appended with id `lastId + 1`, returned as `lastInsertRowid`, and uniqueness of ids and emails is kept |
| AuthServer.RegisterValidate | server/index.js:99-120 | a missing or empty field gives 400 "All fields are required"; a password under 6 gives 400 with the length message; a taken email gives 400 "User with this email already exists"; only otherwise does the handler go on, with the four fields |
| AuthServer.RegisterCommit | server/index.js:122-161 | if the email was taken meanwhile, 500 and the table is unchanged; otherwise exactly one row with the hashed password and role `user` is appended, and the 201 reply has a token for `{id, email, 'user'}` and a user view without the password |
| AuthServer.Register | server/index.js:97-162 | 201 iff all fields are present, the password has 6 or more characters and the email is new; every failure is 400 and leaves the table unchanged; success appends one row with a fresh id and keeps the table valid |
| AuthServer.RegisterRace | server/index.js:115-160 | two registrations for one email that both pass the check before `await` end with one 201, one 500, and one row for the email |
| AuthServer.Login | server/index.js:167-213 | missing fields give 400; otherwise 200 iff the stored row for the email accepts the password, and every other case is 401 "Invalid email or password"; the token claims and user view come from the stored row |
| AuthServer.LoginFailuresIndistinguishable | server/index.js:177-190 | an unknown email and a wrong password get the identical 401 reply |
| AuthServer.RegisterThenLogin | server/index.js:177-213 | right after registering, the same credentials log in, with the new id, the email and role `user` in token and view |
| AuthServer.BearerToken | server/index.js:69-70 | a token is found iff the header is present and its second space-separated segment is non-empty; the token is that segment, the text after the first space-free segment and its space |
| AuthServer.BearerTokenOfSchemeAndToken | server/index.js:70 | any space-free scheme word, a space and a space-free token yield that token, so the scheme is not checked |
| AuthServer.AuthenticateToken | server/index.js:68-83 | no token gives 401 "Access token required", a token `verify` refuses gives 403 "Invalid or expired token", and a token `verify` accepts proceeds with exactly the claims it decodes to |
| AuthServer.AuthenticateIssuedToken | server/index.js:72-82 | a token the server signed proceeds with its own claims before `exp` and gets 403 from `exp` on |
| AuthServer.AuthenticatedClaimsUnexpired | server/index.js:76-80 | any claims that get through are unexpired |
| AuthServer.Profile | server/index.js:224-236 | authentication failures pass through; otherwise 200 with that user's columns iff a row has the token's `userId`, else 404 "User not found" |
| AuthServer.RegisterTokenAuthenticates | server/index.js:134-142 | the token a registration returns authenticates, for 24 hours, with claims carrying the new id, the email and role `user` |
| AuthServer.RegisterThenProfile | server/index.js:224-236 | the token a registration returns opens the new user's profile, with its id, email, names, role `user` and creation time, for 24 hours |
| AuthServer.Users | server/index.js:284-296 | authentication failures pass through; a non-admin role gets 403 "Admin access required"; 200 iff the role is `admin`, and then every row is listed in order without its password |
| AuthServer.ForgotPassword | server/index.js:248-273 | an absent or empty email gives 400 "Email is required"; any other email gives 200 with the same acknowledgement |
| AuthServer.ForgotPasswordRevealsNothing | server/index.js:257-273 | the reply is the same whatever accounts the table holds |
| AuthServer.Handle | server/index.js:97-303 | only a 201 registration changes the table, by appending one row; every route keeps the table valid |
| AuthServer.Run | server/index.js:33-41 | any sequence of requests keeps the table valid and only ever appends rows |
| AuthServer.SeedAdmin | server/index.js:49-56 | `INSERT OR IGNORE` adds the administrator row only when its email is absent, and afterwards the email is present; either way the AUTOINCREMENT counter advances by one |
| AuthServer.SeedAdminAgain | server/index.js:50-56 | seeding a second time, with any hash, keeps the rows and spends one id |
| AuthServer.SeedTwiceThenInsert | server/index.js:34-56 | after two seeds of an empty table, the next insert of another email gets id 3 |
| AuthServer.Boot | server/index.js:32-56 | the table at start-up holds exactly the administrator row, with id 1, role `admin` and the hash of `admin123` |
| AuthServer.AdminCanListUsers | server/index.js:284-296 | the seeded administrator logs in with `admin123`, and within 24 hours that token lists every row |
| AppUserStore.StoreVarchar | server/database.js:43-45 | a value fits a `VARCHAR(255)` column iff it has at most 255 characters or only spaces past the 255th; the stored value is its prefix, followed in the input only by spaces |
| AppUserStore.TrailingSpaceIsCut | server/database.js:43-45 | 255 characters and a space are stored as the 255 characters; 255 characters and any other character are refused |
| AppUserStore.CreateUser | server/database.js:68-87 | the driver's 22001 error iff a value does not fit; then the sequence error iff the sequence is past 2147483647; then "Email already exists" iff the stored email is present; success exactly otherwise, appending an active row with the stored values and a fresh id, and returning every column but the hash; failures leave the rows; the sequence advances exactly when the insert runs |
| AppUserStore.FindUserByEmail | server/database.js:90-106 | returns the SELECT list (hash included, `updated_at` not) of an active row with that email, or null exactly when no active row has it |
| AppUserStore.CountEmail | server/database.js:112-121 | `COUNT(*)` is zero exactly when no row, active or not, has the email |
| AppUserStore.EmailExists | server/database.js:109-125 | true iff some row, active or inactive, has the email |
| AppUserStore.GetUserById | server/database.js:128-144 | throws the driver's 22003 error iff the id is outside the `integer` range; otherwise returns the summary of an active row with that id, without the hash, or null exactly when there is none |
| AppUserStore.FoundEmailExists | server/database.js:90-125 | an active hit implies existence; existence without a hit means every row with the email is inactive |
| AppUserStore.CreateThenLookup | server/database.js:68-144 | a created account is found at once by email (with its hash) and by id (without) |
| AppUserStore.CreateTwiceFails | server/database.js:82-84 | a second `createUser` for one email always fails and leaves the rows unchanged, and throws "Email already exists" when its other values fit and the sequence has a value left |
| AppUserStore.Apply | server/database.js:90-144 | the three lookups never change the store; only a successful create changes the rows; validity is kept |
| AppUserStore.Replay | server/database.js:41-49 | any sequence of operations only appends rows, never moves the sequence back, and keeps ids and emails distinct |
| RegisterForm.NameError | src/components/Register.jsx:35-39 | an error iff the trimmed name has fewer than 2 characters: "Full name is required" when it trims to empty, else the length message |
| RegisterForm.EmailError | src/components/Register.jsx:42-47 | an error iff the e-mail does not match the pattern: "Email is required" when empty, else "Please enter a valid email address" |
| RegisterForm.PasswordError | src/components/Register.jsx:50-54 | an error iff the password has fewer than 6 characters: "Password is required" when empty, else the length message |
| RegisterForm.ConfirmError | src/components/Register.jsx:57-61 | an error iff the confirmation is empty or differs from the password, with the matching message |
| RegisterForm.Validate | src/components/Register.jsx:31-65 | each field's key holds exactly that field's rule result, every message is non-empty, nothing is under `general`; no errors at all iff the name, e-mail, password and confirmation rules all pass |
| RegisterForm.InputChange | src/components/Register.jsx:15-29 | only the named field changes; only that field's error is blanked, and only if it had one |
| RegisterForm.Submit | src/components/Register.jsx:67-88 | a request is sent iff validation passes; then errors are cleared, loading starts, and the payload is the trimmed name, the lower-cased e-mail and the password as typed |
| RegisterForm.Receive | src/components/Register.jsx:90-114 | success notifies the parent with the user; 409 puts the message under `email` alone; other failures set `general` to the message or "Registration failed"; a network failure sets the network message; loading always ends |
| RegisterForm.BackToLogin | src/components/Register.jsx:117-122 | the form, the errors and the success flag are reset |
| RegisterForm.ConflictThenRetype | src/components/Register.jsx:100-106 | after a 409, typing in the e-mail field blanks that error and no other key is present |
| ForgotPasswordForm.SameRuleAsRegistration | src/components/ForgotPassword.jsx:15 | the reset screen accepts exactly the addresses the registration form accepts |
| AppScreens.InputChange | src/App.jsx:17-28 | only the named field changes and the banner is empty afterwards |
| AppScreens.Submit | src/App.jsx:33-51 | nothing is sent iff a field is empty, and then the banner asks for both; otherwise the credentials go out as typed, loading starts and the banner is cleared |
| AppScreens.Receive | src/App.jsx:53-68 | success sets the user, moves to the dashboard and clears the form; a failure keeps screen, user and form and shows the message or "Login failed"; a network failure shows the network message; loading always ends |
| AppScreens.Navigate | src/App.jsx:71-84 | the forgot, back and register handlers set only the screen and clear the banner |
| AppScreens.RegistrationTimerFired | src/App.jsx:86-92 | the screen becomes login, with the new user's e-mail and an empty password in the form |
| AppScreens.Logout | src/App.jsx:94-99 | user, screen, form and banner return to their initial values |
| AppScreens.Render | src/App.jsx:102-202 | the dashboard iff the screen is the dashboard and a user is set; the sign-in card iff the screen is login, with the banner iff the error is non-empty; Register iff the screen is register; ForgotPassword otherwise |
| AppScreens.SignInSignOut | src/App.jsx:53-99 | a successful sign-in shows the user's dashboard, and signing out restores the initial state and the empty sign-in card |
| AppScreens.SuccessWithoutUserShowsForgotPassword | src/App.jsx:55-58 | a success reply without `user` leaves the dashboard screen with no user, which renders the reset screen |
| AppScreens.FailedSignInShowsBanner | src/App.jsx:60-67 | after a failed sign-in the card is enabled again and shows a banner |
| AppScreens.RegistrationPrefillsSignIn | src/App.jsx:86-92 | after registration the sign-in card shows the new e-mail, and typing a password is enough to send both |
| ForgotPasswordForm.InputChange | src/components/ForgotPassword.jsx:97 | only the address changes |
| ForgotPasswordForm.Submit | src/components/ForgotPassword.jsx:12-21 | the wait starts iff the address matches the pattern; otherwise the error is set; otherwise the error is cleared and loading starts |
| ForgotPasswordForm.TimerElapsed | src/components/ForgotPassword.jsx:24-31 | after the wait, the request counts as submitted and loading ends |
| ForgotPasswordForm.BackToLogin | src/components/ForgotPassword.jsx:34-39 | the address, the confirmation and the error are reset |
| ForgotPasswordForm.Resend | src/components/ForgotPassword.jsx:73 | only `isSubmitted` is reset |
| ForgotPasswordForm.Render | src/components/ForgotPassword.jsx:41-108 | the confirmation naming the address iff submitted; otherwise the form, with the input disabled while loading and the button disabled iff loading or the address is empty |
| ForgotPasswordForm.SubmitConfirmResend | src/components/ForgotPassword.jsx:12-31 | a well-formed address leads to the confirmation naming it, and "Resend" returns to the enabled form with the address kept |
| ForgotPasswordForm.RejectedAddressShowsError | src/components/ForgotPassword.jsx:15-19 | a malformed address leaves the form enabled, showing "Please enter a valid email address" |
| Calendar.DaysInMonth | src/components/cards/EventsCalendarCard.jsx:19-20 | a month has 28 to 31 days, and February has 29 exactly in Gregorian leap years |
| Calendar.Weekday | src/components/cards/EventsCalendarCard.jsx:21 | the starting day of the week is in 0..6 |
| Calendar.YearLength | src/components/cards/EventsCalendarCard.jsx:19-20 | by the day-count reference, a March-to-March year has 366 days iff its February is a leap February |
| Calendar.MonthLength | src/components/cards/EventsCalendarCard.jsx:19-20 | the first of the next month is `DaysInMonth` days after the first of this one by the day-count reference |
| Calendar.ConstructorYear | src/components/cards/EventsCalendarCard.jsx:18-19 | `new Date(year, …)` reads a year from 0 to 99 as 1900 plus it, and any other year as itself |
| Calendar.NewDate | src/components/cards/EventsCalendarCard.jsx:18-19 | `new Date(year, month, day)` is the MakeDay of the 1900-shifted year for years 0 to 99, and of the year itself otherwise |
| Calendar.MakeDayOfMonth | src/components/cards/EventsCalendarCard.jsx:18-19 | `new Date(y, m, 1)` is the first of month `m`, and `new Date(y, m + 1, 0)` is the day before the next month's first, December rolling into January |
| Calendar.Layout | src/components/cards/EventsCalendarCard.jsx:23-35 | the two loops produce `startingDayOfWeek` nulls followed by 1..`daysInMonth` in order |
| Calendar.GetDaysInMonthAsWritten | src/components/cards/EventsCalendarCard.jsx:15-36 | the grid built from the constructor's dates is the month grid of the constructor's year |
| Calendar.GetDaysInMonth | src/components/cards/EventsCalendarCard.jsx:15-36 | the grid is the month grid: one null per weekday before the first, then the days of the month by the table |
| Calendar.GridColumns | src/components/cards/EventsCalendarCard.jsx:21-33 | every day of the month sits in the column of its own weekday, and the cells before the first are null |
| Calendar.OneEventPerMonth | src/components/cards/EventsCalendarCard.jsx:90-95 | every month shows the event marker exactly once, on the 10th |
| Calendar.SetMonth | src/components/cards/EventsCalendarCard.jsx:40-42 | `setMonth` yields a valid date, and that date is the day ECMAScript's MakeDay denotes |
| Calendar.NavigateMonth | src/components/cards/EventsCalendarCard.jsx:38-44 | navigating keeps the date valid |
| Calendar.NavigateFromFirst | src/components/cards/EventsCalendarCard.jsx:38-44 | from a first of the month, navigation moves by exactly `direction` months, with year rollover, and lands on a first |
| Calendar.NavigateRoundTrip | src/components/cards/EventsCalendarCard.jsx:38-44 | +1 then -1, or -1 then +1, returns to the same month |
| Calendar.Browse | src/components/cards/EventsCalendarCard.jsx:6-44 | any sequence of clicks from 1 July 2025 stays on the first of a month, offset by the sum of the directions |
| Calendar.FebruaryOfYearZeroReachable | src/components/cards/EventsCalendarCard.jsx:38-44 | 24305 clicks back reach 1 February of year 0 |
| Calendar.LegacyFebruaryOfYearZero | src/components/cards/EventsCalendarCard.jsx:18-19 | for February of year 0, the as-written grid ends at the 28th and has no 29th, while the month has 29 days |
| Calendar.InitialGrid | src/components/cards/EventsCalendarCard.jsx:6 | the first grid shown (July 2025) is two nulls then 1..31 |

## Left out

- Express wiring and the routes around the modelled ones: CORS, JSON parsing, the health route, the 404 and error middleware, `app.listen`, start-up and shutdown logging, and the SIGINT/SIGTERM handlers. None of them carries logic beyond logging.
- The `catch` blocks that answer 500 on login, profile, forgot-password and the user list. In the model no lookup, hash or sign call fails, so they are unreachable.
- JSON body fields other than strings or absent ones (numbers, objects, `null`). The model's `Field` is `Option<string>`.
- bcrypt and JWT internals, the cost factor 10, and the fallback secret. They are abstract functions and parameters.
- The PostgreSQL pool, SSL settings, connection acquire and release, and `initializeDatabase`. The model keeps only row-set semantics.
- AppUserStore.CreateUser: assumes the length coercions of the bound parameters are evaluated when the statement is planned, before the SERIAL default runs, so a value that does not fit leaves the sequence where it was.
- AppUserStore.GetUserById: the id is an integer; a JavaScript value that is not one (a fraction, a non-numeric string) is refused when bound as well, and is not modelled.
- `created_at` and `updated_at` are the caller's `now`, not the database clock. `createdAt` in `users` likewise comes from `Env.now`.
- String lengths count Unicode scalar values, while JavaScript's `.length` counts UTF-16 code units. This affects RegisterForm.NameError, RegisterForm.PasswordError and AuthServer.RegisterValidate only for characters outside the Basic Multilingual Plane.
- JsText.ToLowerAscii, RegisterForm.Submit: the lower-cased e-mail is stated for ASCII letters only (JsText.ToLowerAscii), because full Unicode case mapping is not modelled.
- The simulated two-second request in `ForgotPassword.jsx` never rejects, so its `catch` ("Something went wrong") is unreachable and not modelled.
- The browser's own `required` and `type="email"` checks on the inputs are outside the component code and not modelled. So is implicit submission with Enter while the button is disabled.
- `fetch`, `response.json()` and `setTimeout` become input events. A reply that is not JSON counts as a network failure, which is what the client's `catch` does with it.
- A user may leave the registration screen before the two-second timer fires. The timer then still switches to the login screen, and the model allows that ordering, but it does not track the unmounting of the `Register` component and the loss of its state.
- Console logging, JSX markup and CSS, and the static dashboard components are not modelled.
- Time of day, time zones and the JavaScript `Date` range limit (about ±275,000 years) are not modelled. Dates are whole days of the proleptic Gregorian calendar, for any integer year.

## Findings

| source | as written | input that shows it | evidently intended | confidence | as-written member | corrected member |
|---|---|---|---|---|---|---|
| src/components/cards/EventsCalendarCard.jsx:18-19 | `getDaysInMonth` passes the displayed full year to `new Date(year, month, …)`, which reads years 0–99 as 1900–1999. The header shows year `y`, since `setMonth` keeps the full year, but the grid is laid out for `1900 + y` | February of year 0, reached by 24305 clicks back from July 2025: the header reads February 0, and the grid ends at the 28th | the grid of the displayed month: 29 days, each in its own weekday column | low impact (needs thousands of clicks); not executed | Calendar.GetDaysInMonthAsWritten, shown by Calendar.LegacyFebruaryOfYearZero | Calendar.GetDaysInMonth |
