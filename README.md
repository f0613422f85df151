# EduMentor core in Dafny

This project models the three parts of the EduMentor study app (`app.py`) that have any logic
beyond showing a page. Each part comes with proofs about it.

- **Reminders** (`reminders.dfy`). The session keeps a registry, `reminders_by_user`. It maps
  each owner's email to an ordered list of reminder entries. Each entry holds a time `"HH:MM"`,
  a message, a `sent` flag and the last error.
  - The reminder page adds entries to the registry.
  - A background dispatcher ticks through the registry. On each tick it mails every unsent
    entry whose time is the current minute, marks the entry sent, and records the gateway's
    error when a send fails.
  - `Registry` is a class whose fields the methods update.
  - `Registry.Tick` is a loop proved against the specification functions `TickLists` and
    `TickMails`. The lemmas state what the source promises about those functions.
- **Study plan** (`study_plan.dfy`).
  - The focus text is split at commas. Each piece is stripped of whitespace, and blank pieces
    are dropped.
  - Each topic, in input order, gets a block of `max(1, total_days // len(topics))` days out of
    `weeks * 7`. The block is clamped to the last day and shown with the requested hours per
    day.
  - Python's `str.split(",")` and `str.strip()` are written out, with their round-trip and
    order properties.
  - The row loop is a method proved against `PlanRows`.
- **Credentials** (`credentials.dfy`).
  - The users file is a sequence of (email, bcrypt hash) rows.
  - `save_user` appends a row without checking for duplicates.
  - `verify_user` checks the password against the first row with that email.
  - The sign-up button refuses empty fields and emails already present.
  - bcrypt is a pair of function values. Its one promise, that a password checks against its
    own hash, is the precondition `Sound` of the lemmas that need it.
- **Clock** (`clock.dfy`). A minute of the day and its `strftime("%H:%M")` text, with the
  format/parse round trip.

A tick is given two things from outside:

- the current minute, standing in for `datetime.now()`;
- the gateway's answers, standing in for `_send_email_direct`. Send number `k` of a tick gets
  `replies[k]`.

The tick returns the mails it sent, in order.

## Model

| member | source | states |
|---|---|---|
| Clock.HHMM | app.py:55 | the minute's text is five characters: two digits, a colon, two digits |
| Clock.FormatThenParse | app.py:334 | the "HH:MM" text of a valid minute reads back as the same minute |
| Clock.ParseThenFormat | app.py:334 | every string that reads as a minute is exactly that minute's "HH:MM" text |
| Clock.HHMMInjective | app.py:62 | two minutes have equal text exactly when they are the same minute, so comparing strings compares minutes |
| Reminders.MailFor | app.py:63 | the mail goes to the entry's owner, with subject "EduMentor Study Reminder" and the entry's message as body, or "Time to study!" when the entry has none |
| Reminders.Due | app.py:59-62 | the tick's test: an entry is attempted when it is not sent and its time text equals the current minute's; TickedAt, TickOnlyTouchesDue and AddedEntryDueExactlyAt give its meaning |
| Reminders.Attempted | app.py:64-66 | an attempted entry is sent, with time and message kept; its error is the gateway's text after a failure and stays as it was after a success (used at registry level by TickRecordsOutcome) |
| Reminders.NewEntry | app.py:336 | the entry an add creates: the formatted time, the message, not sent, no error; its meaning for the tick is AddedEntryDueExactlyAt, its place in the registry is Registry.Add |
| Reminders.Entries | app.py:335 | `reminders_by_user.get(user, [])`: a user's list, or the empty list; TickAllOutside and TickAllListAt state what a tick does to it |
| Reminders.DueMails | app.py:58-63 | one owner's list produces exactly one mail per due entry |
| Reminders.Ticked | app.py:58-66 | one owner's list after the inner loop keeps its length; TickedAt states entry by entry that exactly the due entries are attempted with the reply to their own send, and DispatchList proves the loop equal to it |
| Reminders.TickMails | app.py:56-63 | a tick sends exactly as many mails as there are due entries over all owners |
| Reminders.TickLists | app.py:54-66 | a tick keeps the registry's set of owners |
| Reminders.TickedAt | app.py:58-66 | within one list, an entry is attempted with the reply to its own send exactly when it is unsent and timed for now; every other entry is unchanged |
| Reminders.DueMailAt | app.py:58-63 | within one list, a due entry's mail comes right after the mails of the due entries before it |
| Reminders.TickAllOutside | app.py:56 | a tick leaves the list of an email outside the registry's keys as it was |
| Reminders.TickAllListAt | app.py:56-66 | each owner's list is ticked on its original entries, with send numbers continuing after the owners before it |
| Reminders.TickMailsPrefixAt | app.py:56-63 | the mails for the first owners are the first mails of the tick |
| Reminders.TickMailsLast | app.py:56-63 | the last owner's mails come right after the mails of the owners before it |
| Reminders.TickMailsAt | app.py:56-63 | each owner's mails form one block that follows the mails of the owners before it |
| Reminders.TickEntry | app.py:56-66 | entry `j` of owner `i` becomes "attempted with the reply to its send number" if due, else stays; list length is kept |
| Reminders.TickSendsMail | app.py:62-63 | every due entry gets its own mail at its own send number, addressed to the owner with the fixed subject and its body |
| Reminders.TickOnlyTouchesDue | app.py:58-62 | a tick leaves every entry that is already sent or timed for another minute unchanged, and keeps keys and list lengths |
| Reminders.TickRecordsOutcome | app.py:63-66 | a due entry ends sent whatever the reply; its time and message are kept; its error becomes the gateway's text exactly when the send failed, and stays as it was after a success |
| Reminders.TickMonotone | app.py:59-60 | an entry already sent stays exactly as it was, so `sent` never goes back to false |
| Reminders.CountDueZero | app.py:59-62 | a list counts no due entry exactly when none of its entries is due |
| Reminders.TickedSettles | app.py:64 | after a tick no entry of the list is due any more |
| Reminders.TickedQuiet | app.py:58-62 | a list with no due entry is neither changed nor mailed |
| Reminders.CountDueAllZero | app.py:56-62 | a registry whose lists have no due entries counts none in all |
| Reminders.TickAllSettles | app.py:56-64 | after a tick no entry of the registry is due at that minute |
| Reminders.TickQuiet | app.py:56-62 | a tick over a registry with nothing due changes nothing and sends nothing |
| Reminders.TickIdempotent | app.py:52-67 | a second tick in the same minute sends nothing and changes nothing, whatever the gateway answers |
| Reminders.TickRepeatedly | app.py:52-67 | any number of ticks keep the registry's set of owners |
| Reminders.RepeatedTicksSendOnce | app.py:52-67 | any number of ticks within one minute end in the state, and send exactly the mails, of the first tick: at most one attempt per entry per minute |
| Reminders.DueMailsStep | app.py:58-63 | one more entry adds its mail, if due, after the mails of the entries before it |
| Reminders.TickStep | app.py:56-66 | ticking one more owner replaces only that owner's list and appends only that owner's mails |
| Reminders.AddedEntryDueExactlyAt | app.py:62 | a newly added entry is due at a minute exactly when that minute is its reminder time |
| Reminders.DispatchOne | app.py:58-66 | one entry: if due, it is mailed and marked with the outcome of that send; otherwise nothing happens |
| Reminders.DispatchList | app.py:58-66 | the inner loop over one owner's list yields exactly `Ticked` of the list and appends exactly that owner's due mails |
| Reminders.Registry.constructor | app.py:114-116 | the registry starts empty and well formed |
| Reminders.Registry.Add | app.py:330-337 | with no logged-in user nothing changes; otherwise exactly one unsent entry with the formatted time and the message goes at the end of the user's list (a new user becomes the last key), and every other list is unchanged |
| Reminders.Registry.Tick | app.py:53-66 | the registry after the loop is `TickLists` of the old registry and the mails sent are `TickMails`; owners and well-formedness are kept |
| StudyPlan.LStripSpec | app.py:198 | `lstrip` drops exactly the leading whitespace: the result is a suffix, the cut is all whitespace, and the result does not start with whitespace |
| StudyPlan.RStripSpec | app.py:198 | `rstrip` drops exactly the trailing whitespace |
| StudyPlan.StripSlice | app.py:198 | `strip` is a slice of the text, with only whitespace cut on each side and no whitespace left at either end |
| StudyPlan.StripEmpty | app.py:195 | the stripped text is empty exactly when the text is all whitespace |
| StudyPlan.Strip | app.py:195-198 | `str.strip()`; its meaning is StripSlice (a slice with only whitespace cut and none left at either end), StripEmpty and StripIdempotent |
| StudyPlan.StripIdempotent | app.py:198 | stripping twice is stripping once |
| StudyPlan.StripNoComma | app.py:198 | stripping keeps a comma-free text comma-free |
| StudyPlan.Split | app.py:198 | splitting always gives at least one piece |
| StudyPlan.SplitNoCommaInPieces | app.py:198 | no piece of a split contains a comma |
| StudyPlan.JoinSplit | app.py:198 | joining the pieces with commas gives the text back |
| StudyPlan.SplitJoin | app.py:198 | splitting comma-free pieces joined by commas gives the pieces back |
| StudyPlan.SplitNoComma | app.py:198 | a comma-free text is one piece |
| StudyPlan.SplitConcat | app.py:198 | splitting `x,y` gives the pieces of `x` followed by the pieces of `y` |
| StudyPlan.KeepStrippedConcat | app.py:198 | filtering a concatenation of pieces filters each part, in order |
| StudyPlan.KeepStripped | app.py:198 | the comprehension's filter keeps at most as many topics as there are pieces; KeepStrippedConcat states it keeps order, KeepStrippedClean that every kept topic is clean |
| StudyPlan.Topics | app.py:198 | `[t.strip() for t in focus.split(",") if t.strip()]`; TopicsClean, TopicsConcat, TopicsOfPiece and BlankFocusNoTopics state that the topics are the stripped, non-blank pieces in input order |
| StudyPlan.KeepStrippedClean | app.py:198 | every kept topic of comma-free pieces is non-empty, comma-free and stripped |
| StudyPlan.TopicsClean | app.py:198 | every topic is non-empty, comma-free and has no whitespace at either end |
| StudyPlan.TopicsConcat | app.py:198 | topics keep input order: the topics of `x,y` are those of `x` then those of `y` |
| StudyPlan.TopicsOfPiece | app.py:198 | a comma-free piece gives its stripped text as one topic, or none when it is blank |
| StudyPlan.BlankFocusNoTopics | app.py:195-198 | a blank focus text has no topics |
| StudyPlan.DaysPerTopic | app.py:200 | days per topic is at least 1; with no more topics than days, the topics' blocks fit in the total with fewer than `n` days left over (less than one extra day per topic); with more topics than days it is 1 |
| StudyPlan.StartDay | app.py:203 | `(i - 1) * days_per_topic + 1` with the zero-based position: days are numbered from 1; PlanLayout states each row's start |
| StudyPlan.EndDay | app.py:204 | the end day is the smaller of the block's last day `start + d - 1` and the total: never after either, and equal to one of them |
| StudyPlan.RowFor | app.py:205 | the row dict: the topic, its start and end day and the hours per day; PlanRowsTopics and PlanLayout state its fields |
| StudyPlan.PlanRows | app.py:199-205 | the rows for the topics over the total days; PlanRowsTopics states one row per topic in order with the requested hours, PlanLayout states the day ranges, BuildRows proves the row loop equal to it |
| StudyPlan.PlanLayout | app.py:199-204 | row `k` starts on day `k*d+1` and ends on day `(k+1)*d`, or on the last day when that comes first. With no more topics than days, every range is non-empty and the next starts the day after this one ends. With more topics than days, exactly the rows from position `total_days` on are empty ranges (start after end) |
| StudyPlan.PlanUnplannedTail | app.py:199-204 | with no more topics than days, the last topic ends on day `n*d`, no row ends later, and the fewer than `n` days after it get no topic |
| StudyPlan.ThreeTopicsFourWeeks | app.py:199-205 | four weeks and three topics give days 1-9, 10-18 and 19-27, leaving day 28 unplanned |
| StudyPlan.PlanRowsTopics | app.py:202-205 | one row per topic, in order, each with the requested hours per day |
| StudyPlan.BuildRows | app.py:201-205 | the row loop (numbering from 1) builds exactly `PlanRows` |
| StudyPlan.PlanAsWritten | app.py:194-205 | a produced plan has one row per topic and at least one row |
| StudyPlan.CommaFocusDividesByZero | app.py:195-200 | the focus text "," passes the guard and then divides by zero |
| StudyPlan.Plan | app.py:194-205 | a produced plan has one row per topic and at least one row; the only failure is the missing-fields warning |
| StudyPlan.PlanAgreesAsWritten | app.py:195-200 | the handler as written divides by zero exactly when name, goal and stripped focus are given but no topic remains; on every other input it agrees with the corrected plan |
| StudyPlan.PlanOutcome | app.py:194-205 | the corrected plan is produced exactly when name and goal are given and the focus has a topic, and it is then the rows for those topics over `weeks*7` days |
| StudyPlan.GeneratePlan | app.py:194-205 | the handler with the corrected guard returns exactly `Plan` |
| Credentials.FirstIndex | app.py:97-100 | none exactly when no row has the email; otherwise the first row with that email |
| Credentials.Registered | app.py:165 | `email in users_df["email"].values`: some row has the email; FirstIndex is none exactly when it fails, and, for a non-empty email and password, SignUp answers AlreadyRegistered exactly when it holds |
| Credentials.Verify | app.py:95-101 | `verify_user` succeeds exactly when some row has the email, no earlier row has it, and the password checks against that row's hash; VerifyUnknown, AppendKeepsVerify, SignUpThenVerify and WrongPasswordRejected relate it to sign-up |
| Credentials.VerifyUnknown | app.py:97-99 | login with an email that has no row fails, whatever the password |
| Credentials.FirstIndexAppend | app.py:92 | appending a row never moves the first match of an email that already had one; a new email's first match is the new row |
| Credentials.AppendKeepsVerify | app.py:92-101 | appending a row leaves every login answer unchanged, for a registered email and for any email other than the new row's |
| Credentials.SignUpThenVerify | app.py:89-101 | after signing up a new email, logging in with the same password succeeds (given bcrypt's promise) |
| Credentials.WrongPasswordRejected | app.py:89-101 | after signing up a new email, another password is rejected (given a collision-free bcrypt) |
| Credentials.AppendKeepsUnique | app.py:165-168 | appending a row for an email not yet present keeps every email in at most one row |
| Credentials.UserStore.constructor | app.py:81-87 | a missing users file starts with no rows |
| Credentials.UserStore.SaveUser | app.py:89-93 | exactly one row (email, hash of the password under the salt) is appended, without a duplicate check |
| Credentials.UserStore.SignUp | app.py:159-169 | empty email or password: refused, nothing changes. Email already present: refused, nothing changes. Otherwise exactly one row is appended. Unique emails stay unique, and the new user can log in with that password |
| Credentials.UserStore.Login | app.py:95-101 | the answer is `verify_user` on the current rows; a successful login implies the email is registered |

## Left out

- Of the login and sign-up form (app.py:152-181), the model leaves out the widgets and what a
  successful login does to the session (the `logged_in`, `user_email` and `login_time` flags
  and the rerun, app.py:173-179). Its decisions are modelled: the sign-up checks
  (app.py:159-169) by `Credentials.UserStore.SignUp` and the login check (app.py:171-172) by
  `Credentials.UserStore.Login`.
- The other pages are left out: the Interview Questions page (one prompt to the AI model and one
  block of generated text, app.py:217-286), the Code Practice page (exec and sqlite,
  app.py:291-317), the 30-minute rest alert (app.py:353-365) and `config.py`. They hold no
  logic beyond showing a page or calling a service.
- SMTP, the daemon thread, `time.sleep(20)`, the blanket `except` and `datetime.now()` are
  left out. A tick takes the current minute and the gateway's answers as parameters. A raise
  in the middle of a tick (which would leave later entries for the next tick) is not modelled.
- Concurrent changes to the registry between the page and the thread are not modelled; a tick
  is one atomic step.
- Reminder entries are values, not shared dictionaries. Aliasing between the page's list and
  the dispatcher's copy of the list is not modelled.
- Reminders.Registry.Tick: requires at least one gateway answer per due entry. `Answer`
  defaults to success past the end only so that the specification functions are total.
- Reminders.Registry.Add: the time comes from the time widget, so it is always a valid minute.
  The code never checks the time, and the model has no invalid-time error.
- The reminder message is stored as given; an empty text is an empty message, not the default
  body. The default body is used only for an entry without a message (`Entry.msg == None`).
- StudyPlan.Row keeps the `Days` column as its two numbers. The text "Day s - Day e" and the
  DataFrame display are not modelled.
- StudyPlan.GeneratePlan does not require the widget ranges (weeks 1 to 52, hours 1 to 12).
  Every natural input is handled.
- bcrypt's internals, its random salt (a parameter here) and its 72-byte password limit are
  left out. `Sound` and `Exact` are preconditions of the lemmas that need them.
- The CSV file and pandas are left out. The table is held in memory, so reading the file back
  is not modelled. pandas reads the emails "NA", "null" and "nan" back as NaN. It reads a
  numeric email such as "123" back as a number only while every stored email is numeric or
  missing. After a reload such an email no longer matches itself in `users_df["email"]`, so it
  can sign up again and again (app.py:165) and can never log in (app.py:97).
  `Credentials.SignUpThenVerify` holds in the model but not in the app for these emails.
- Credentials.UserStore.SaveUser: like the code, it does not check for duplicates. Only the
  sign-up page checks.

## Findings

| source | as written | input that shows it | evidently intended | confidence | as-written member | corrected member |
|---|---|---|---|---|---|---|
| app.py:195-200 | the guard checks `focus.strip()`, then the code divides `total_days // len(topics)` | focus text `","` (name and goal filled in): the stripped focus is `","`, which is not empty, but no topic survives, so the division raises ZeroDivisionError | the "Please fill all fields." warning when the focus has no topic | not executed | StudyPlan.CommaFocusDividesByZero | StudyPlan.PlanOutcome |
