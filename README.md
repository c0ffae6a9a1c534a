# Nikki diary — a verified Dafny model of its core

Nikki is a personal diary web application. A signed-in user writes one entry per calendar day, with a
mood colour. Entries are encrypted at rest with a fail-open codec. There are a calendar view, a
streak counter and a most-frequent-mood statistic. A guest mode keeps entries in the browser. A
local PIN lock hides the diary, and there are theme settings and profile initials.

This project models that core in Dafny and proves what its code promises.

- **Encryption** — the `iv:ciphertext` codec (`lib/encryption.ts`): key derivation, the output
  shape, every fail-open path, and the round trip `decrypt(encrypt(x)) == x`. AES-256-CBC
  (FIPS 197, NIST SP 800-38A section 6.2), SHA-256 (FIPS 180-4) and UTF-8 are function-valued fields
  of `Primitives`. The laws the codec relies on are the predicate `Lawful`, which lemmas take as a
  precondition.
- **Hex** and **Text** — Node's hex codec (lenient decoding) and JavaScript's `String.split`,
  modelled concretely.
- **CivilTime** — ECMAScript `Date.UTC` (MakeDay, DayFromYear, the 0..99 → 1900+y rule, month
  overflow), the UTC day range and the month range used by the queries.
- **EntryModel** — the entry schema: required fields, defaults, timestamps and the compound unique
  index on `(date, userId)`.
- **DiaryStats** — the streak loop (an imperative method proved against a reference definition) and
  the most-frequent mood.
- **DiaryActions** — the server actions over a record store (`class EntryStore`, whose records are
  a sequence field): the month and day queries, the upsert, the delete and the statistics.
- **GuestStorage** — the localStorage-backed guest list (`class GuestStore`).
- **LocalLockProvider** and **LocalLockOverlay** — the PIN lock state machine and the four-slot PIN
  pad.
- **ClientPage** — the calendar cache and editor state of the main page.
- **Settings** — the settings context: default settings, the optimistic partial merge and the theme
  class effect.
- **AuthActions** — register, login and logout over a user table keyed by email. bcrypt is an
  abstract `hash`/`compare` pair, and the session cookie is a field.
- **ProfileInitials** — the initials shown in the profile modal.

Where the code's own comments or schema say otherwise, the model follows what the code does:

- **A missing key makes the codec the identity.** The `throw` in `getKey` (lib/encryption.ts:7-8)
  is caught by the `try` in `encrypt` and `decrypt`, so without `ENCRYPTION_KEY` both return their
  input unchanged.
- **Dates are timestamps, not days.** The comments `// dateStr is YYYY-MM-DD` (app/actions.ts:54,
  86, 128) disagree with the `toISOString()` values the page passes in
  (app/components/ClientPage.tsx:32, 45, 58). So a record's `date` is the instant of the first
  save, not UTC midnight, and the unique index is on that exact instant.
  `DiaryActions.LaterSameDaySaveAddsRecord` shows the effect.
- **`required` on `content` is not enforced on save.** The schema marks `content` required
  (models/Entry.ts:25), but `findOneAndUpdate` without `runValidators` does not check it, so an
  empty content is stored.

## Model

| member | source | states |
|---|---|---|
| Encryption.GetKey | lib/encryption.ts:6-14 | the error case (`None`) exactly when no key is configured; a configuration that hex-decodes to 32 bytes is the key itself; any other configuration gives SHA-256 of its UTF-8 bytes (these clauses are its closed form; the promise it keeps, a 32-byte key, is `Encryption.KeyHasCipherLength`) |
| Encryption.KeyHasCipherLength | lib/encryption.ts:11-13 | with a key configured and lawful primitives, the derived key is always the 32 bytes AES-256 needs |
| Encryption.Encrypt | lib/encryption.ts:16-28 | the empty text encrypts to the empty text; with no key configured the text comes back unchanged |
| Encryption.EncryptShape | lib/encryption.ts:19-23 | a non-empty text under a configured key splits on `:` into exactly two parts: 32 hex digits of the IV, then a non-empty hex ciphertext |
| Encryption.Decrypt | lib/encryption.ts:30-52 | the empty text decrypts to itself; a text that does not split into exactly two parts, or any text without a key, is returned unchanged |
| Encryption.RoundTrip | lib/encryption.ts:16-52 | for every text, key configuration and 16-byte IV, decrypting the encryption gives the text back |
| Encryption.BadIvPassesThrough | lib/encryption.ts:40-51 | a two-part value whose first part does not decode to 16 bytes (legacy plain text with a colon) is returned unchanged |
| Encryption.FailedDecipherPassesThrough | lib/encryption.ts:40-51 | when deciphering throws (wrong key, corrupt data, bad padding) the stored value is returned unchanged |
| Encryption.LoneColonPassesThrough | lib/encryption.ts:34-51 | the value `":"` splits into two empty parts, the empty IV is refused, and `":"` comes back |
| Hex.Encode | lib/encryption.ts:23 | hex encoding doubles the length and yields only hex digits |
| Hex.EncodeHasNoColon | lib/encryption.ts:23 | hex output never contains the `:` separator |
| Hex.Decode | lib/encryption.ts:41-42 | lenient decoding yields at most one byte per two characters |
| Hex.DecodeEncode | lib/encryption.ts:41-42 | decoding the hex encoding of any bytes gives the bytes back |
| Text.Split | lib/encryption.ts:34 | splitting gives one more part than there are separators, and no part contains the separator |
| Text.JoinSplit | lib/encryption.ts:34 | joining the parts with the separator restores the string |
| Text.SplitAroundOne | lib/encryption.ts:34-35 | `a + sep + b` with no separator in `a` or `b` splits into exactly `[a, b]` |
| Text.SplitNone | app/components/ProfileModal.tsx:19 | a string without the separator splits into itself alone |
| CivilTime.EndOfUtcDay | app/actions.ts:55-57 | the end of the range is not before its start, lies on the same UTC day, and is at 23:59:59.999 |
| CivilTime.DaysInMonth | app/actions.ts:25-26 | every month has 28 to 31 days |
| CivilTime.YearLength | app/actions.ts:25-26 | consecutive year starts are 365 or 366 days apart, by the Gregorian leap rule |
| CivilTime.NextMonthStart | app/actions.ts:25-26 | the first day of the next month is the current month's length past the first day of this one, across the year boundary too |
| CivilTime.MonthRangeDays | app/actions.ts:25-26 | the month range starts at midnight of the month's first day and ends at 23:59:59.999 of its last day |
| CivilTime.MonthRangeIsMonth | app/actions.ts:25-26 | the month range is aligned to whole days, spans exactly the month's days, and an instant lies in it exactly when it falls in the normalised year and month |
| CivilTime.DayOfBounds | app/actions.ts:25-26 | an instant lies between the starts of days `lo` and `hi` exactly when its UTC day number does |
| CivilTime.MonthRangesAdjoin | app/actions.ts:25-26 | consecutive month ranges touch with no gap and no overlap |
| CivilTime.MonthOverflow | app/actions.ts:25-26 | month 12 is January of the next year for every year except -1 and 99, where `Date.UTC`'s two-digit-year rule applies to one side only |
| CivilTime.MonthOverflowTwoDigitYear | app/actions.ts:25-26 | the two-digit-year quirk of the month query: month 12 of year 99 is January 2000, not January of year 100, and month 12 of year -1 is January of year 0, not January 1900 |
| CivilTime.LeapFebruary2024 | app/actions.ts:25-26 | February 2024 runs from 1706745600000 to 1709251199999, 29 days |
| EntryModel.Create | models/Entry.ts:13-36 | creation fails exactly when date, userId or content is missing (or content is empty) and names those fields; otherwise the record has the given fields, the violet mood and empty images by default, and equal creation and update timestamps |
| EntryModel.InsertChecked | models/Entry.ts:40 | an insert is refused exactly when the `(date, userId)` key is taken; otherwise the record is appended and the index stays unique |
| EntryModel.ReplaceChecked | models/Entry.ts:40 | a replacement is refused exactly when another record holds the new key; otherwise only that record changes and the index stays unique |
| DiaryStats.InsertDesc | app/actions.ts:158-161 | inserting into a newest-first list keeps it sorted and adds exactly the one element |
| DiaryStats.SortDesc | app/actions.ts:158-161 | the `date: -1` sort is sorted newest first and a permutation of its input |
| DiaryStats.ConsecutiveRunIs | app/actions.ts:176-191 | the reference streak from day `d` is the unique `k` with days `d-k+1..d` present and `d-k` absent |
| DiaryStats.Streak | app/actions.ts:163-193 | the streak never exceeds the number of entries; it is 0 exactly when there are no entries or the newest is more than a day old; over days sorted newest first it is the run of consecutive days, with same-day duplicates skipped |
| DiaryStats.StreakExamples | app/actions.ts:163-193 | three days ending today give 3, a one-day gap gives 1, no entries or a three-day-old newest entry give 0, a run ending yesterday counts |
| DiaryStats.MostFrequent | app/actions.ts:196-201 | the chosen mood occurs, and no mood occurs more often |
| DiaryStats.FrequentMood | app/actions.ts:196-203 | with no moods the default violet, otherwise a mood at least as frequent as every other |
| DiaryStats.MoodExample | app/actions.ts:196-203 | red, red, blue gives red |
| DiaryActions.FirstMatch | app/actions.ts:64 | `findOne` finds the first record of the user in the range, or reports that none is there |
| DiaryActions.AllMatches | app/actions.ts:28-33 | the month query keeps exactly the user's records in the range |
| DiaryActions.UserEntries | app/actions.ts:155-161 | the per-user queries keep exactly that user's records |
| DiaryActions.AllMatchesAppend | app/actions.ts:28-33 | the query distributes over concatenation of the store |
| DiaryActions.ViewsOf | app/actions.ts:36-41 | each record maps to its view with decrypted content, one for one and in order |
| DiaryActions.MonthViewsExact | app/actions.ts:18-46 | every record of the user in the calendar month appears in the result, and every result comes from such a record |
| DiaryActions.Upserted | app/actions.ts:92-108 | with no record of the user that day, exactly one record is appended; otherwise the first such record gets the new date, content, mood and update time, every other record is unchanged, and the write fails exactly when another record holds the new exact key |
| DiaryActions.UpsertKeepsIndex | app/actions.ts:99-108 | a successful upsert keeps the unique index, distinct ids and fresh-id bounds |
| DiaryActions.Deleted | app/actions.ts:133-140 | with no match the store is unchanged; otherwise exactly the first matching record is removed, the rest in order (closed form; its promises are `DiaryActions.DeleteRemovesAtMostOne` and `DiaryActions.DeleteKeepsIndex`) |
| DiaryActions.DeleteRemovesAtMostOne | app/actions.ts:133-140 | a delete shrinks the store by one exactly when something matched, and removes one match from the range |
| DiaryActions.DeleteKeepsIndex | app/actions.ts:138 | a delete keeps the unique index and distinct ids |
| DiaryActions.SaveLeavesOne | app/actions.ts:92-108 | from a store with at most one record of the user in the range from the given instant to the end of its UTC day, a save succeeds and leaves exactly one record in that range |
| DiaryActions.SaveTwiceKeepsOne | app/actions.ts:92-108 | saving the same day twice from the same start still leaves exactly one record for that day |
| DiaryActions.OnlyMatch | app/actions.ts:64 | with at most one record in range, the first match is that record alone |
| DiaryActions.SecondMatch | app/actions.ts:64 | with at most one record in range, no later record matches after the first |
| DiaryActions.OnlyMatchAfterWrite | app/actions.ts:99-108 | after a write that leaves one matching record and no other, the range holds exactly that record |
| DiaryActions.NoMatches | app/actions.ts:28-33 | a store with no record in the range gives an empty result |
| DiaryActions.NoMatchAppends | app/actions.ts:99-108 | with no record in the range, the upsert appends the new record at the end |
| DiaryActions.LaterSameDaySaveAddsRecord | app/actions.ts:87-108 | two saves of one UTC day from different instants both insert, leaving two records for that user and day |
| DiaryActions.UserEntriesAppend | app/actions.ts:155-161 | the per-user query distributes over concatenation |
| DiaryActions.NoUserEntries | app/actions.ts:155-161 | a store with no record of the user gives no record for them |
| DiaryActions.UserDays | app/actions.ts:158-161 | the user's day list has one day per record |
| DiaryActions.UserDaysSorted | app/actions.ts:158-161 | under an order-preserving day function the user's days are newest first |
| DiaryActions.EntryStore.GetMonthEntries | app/actions.ts:18-46 | without a session, nothing; otherwise the decrypted views of the user's records in the month range |
| DiaryActions.EntryStore.GetEntryByDate | app/actions.ts:48-78 | without a session or a valid date, nothing; otherwise a result exactly when a record of the user lies in the UTC day range, and then the decrypted view of a record of the user on that UTC day, at or after the given instant |
| DiaryActions.EntryStore.SaveEntry | app/actions.ts:80-120 | without a session or a valid date, or on a key clash, "Failed to save entry" with the store unchanged; otherwise the store becomes the upsert result, the invariants hold, and the returned record carries the input content and mood |
| DiaryActions.EntryStore.DeleteEntry | app/actions.ts:122-145 | without a session or a valid date, "Failed to delete entry" with the store unchanged; otherwise success, even when nothing matched, and the store loses at most the first matching record |
| DiaryActions.EntryStore.GetUserStats | app/actions.ts:147-215 | the default stats without a user; otherwise the count of the user's records, a streak bounded by that count and equal to the reference streak over newest-first days, and the most frequent mood or violet |
| GuestStorage.FindIndex | app/lib/guest-storage.ts:24 | `findIndex` gives the first entry with that date, or reports that none has it |
| GuestStorage.Saved | app/lib/guest-storage.ts:24-32 | an entry of the same date is replaced at its index, leaving the other indices unchanged; otherwise the new entry is appended (closed form; its promises are `GuestStorage.SaveThenFind`, `GuestStorage.SaveKeepsOtherDates` and `GuestStorage.SaveKeepsDistinct`) |
| GuestStorage.Find | app/lib/guest-storage.ts:38-41 | the result is absent exactly when no entry has the date, and otherwise is the first entry with that date |
| GuestStorage.SaveLength | app/lib/guest-storage.ts:24-32 | a save grows the list by one for a new date and keeps its length otherwise |
| GuestStorage.SaveThenFind | app/lib/guest-storage.ts:24-40 | after saving an entry, looking up its date returns exactly that entry |
| GuestStorage.SaveKeepsOtherDates | app/lib/guest-storage.ts:24-32 | a save does not change what any other date looks up to |
| GuestStorage.SaveKeepsDistinct | app/lib/guest-storage.ts:24-32 | pairwise distinct dates stay distinct after a save |
| GuestStorage.DeleteRemovesDate | app/lib/guest-storage.ts:43-47 | after a delete no entry has the date, and every other entry remains |
| GuestStorage.DeleteKeepsOrder | app/lib/guest-storage.ts:43-47 | deleting distributes over concatenation, so the survivors keep their order |
| GuestStorage.DeleteAbsent | app/lib/guest-storage.ts:43-47 | deleting a date no entry has changes nothing |
| GuestStorage.MonthEntriesExact | app/lib/guest-storage.ts:50-56 | the month filter keeps exactly the entries whose parsed year and month match, in order |
| GuestStorage.GuestStore.GetAll | app/lib/guest-storage.ts:9-18 | nothing stored or unparseable text gives the empty list; otherwise the stored entries |
| GuestStorage.GuestStore.Save | app/lib/guest-storage.ts:20-36 | returns the new entry, stores the replace-or-append result, makes the date look up to it, and keeps distinct dates distinct |
| GuestStorage.GuestStore.GetByDate | app/lib/guest-storage.ts:38-41 | the lookup of the date in the stored entries |
| GuestStorage.GuestStore.Delete | app/lib/guest-storage.ts:43-47 | stores the entries without that date, so no entry of it remains |
| GuestStorage.GuestStore.MonthEntries | app/lib/guest-storage.ts:50-56 | the month filter of the stored entries |
| GuestStorage.GuestStore.Clear | app/lib/guest-storage.ts:58-60 | the slot is removed and reads give the empty list |
| LocalLockProvider.LocalLock.Mount | app/components/LocalLockProvider.tsx:31-39 | a stored PIN gives locked with a PIN; no stored PIN gives unlocked without one; the invariants hold |
| LocalLockProvider.LocalLock.Lock | app/components/LocalLockProvider.tsx:41-43 | locks only when a PIN is set, and changes nothing else |
| LocalLockProvider.LocalLock.Unlock | app/components/LocalLockProvider.tsx:45-51 | succeeds and unlocks exactly when the PIN matches the stored one; otherwise changes nothing |
| LocalLockProvider.LocalLock.SetPIN | app/components/LocalLockProvider.tsx:53-58 | stores the PIN in the slot and the state, sets the PIN flag and leaves the lock open |
| LocalLockProvider.LocalLock.ClearPIN | app/components/LocalLockProvider.tsx:60-65 | removes the PIN from slot and state, clears the PIN flag and leaves the lock open |
| LocalLockProvider.LocalLock.ForceUnlock | app/components/LocalLockProvider.tsx:68-70 | clears only the lock flag |
| LocalLockOverlay.LastChar | app/components/LocalLockOverlay.tsx:32 | `slice(-1)` gives the last character, or nothing for empty input |
| LocalLockOverlay.FilledPinIsFourDigits | app/components/LocalLockOverlay.tsx:40-41 | four filled slots join in order into a four-digit PIN |
| LocalLockOverlay.PinPad.HandlePinChange | app/components/LocalLockOverlay.tsx:28-49 | non-digit input changes nothing; otherwise the slot takes the last character and the error clears; a full pad is offered to the lock, which opens on a match, and a mismatch empties all four slots and sets the error |
| LocalLockOverlay.PinPad.HandleKeyDown | app/components/LocalLockOverlay.tsx:51-55 | focus moves back one slot exactly on Backspace in an empty slot past the first, and the pad is not changed |
| LocalLockOverlay.PinPad.HandleRecovery | app/components/LocalLockOverlay.tsx:57-73 | the lock is forced open only when the password checked out; in every case the verifying flag ends false and the pad is untouched |
| ClientPage.MarksOf | app/components/ClientPage.tsx:18-23 | the cache gets one mark per fetched entry, in order |
| ClientPage.ReplaceDayExact | app/components/ClientPage.tsx:48-51 | after a save the cache holds exactly one mark with the saved day key, and it is last |
| ClientPage.ReplaceDayKeepsOthers | app/components/ClientPage.tsx:48-51 | marks with other day keys are kept in their original order |
| ClientPage.RemoveDayExact | app/components/ClientPage.tsx:61 | after a delete no mark has the day key, and the rest keep their order |
| ClientPage.Page.SelectDate | app/components/ClientPage.tsx:91-94 | picking a date sets both the selected and the current date, and nothing else |
| ClientPage.Page.FetchMonthEntries | app/components/ClientPage.tsx:18-23 | the cache becomes the marks of the month query for the current date's local year and month |
| ClientPage.Page.FetchSpecificEntry | app/components/ClientPage.tsx:30-42 | no stored entry gives an empty editor in violet; a found entry sets the editor from it |
| ClientPage.Page.HandleSave | app/components/ClientPage.tsx:44-55 | a failed save changes nothing; a successful one replaces the day's mark by the saved record and shows it in the editor, which shows the input under lawful primitives |
| ClientPage.Page.HandleDelete | app/components/ClientPage.tsx:57-66 | a failed delete changes nothing; a successful one drops the selected day's marks and resets the editor to empty and violet |
| Settings.Initial | app/context/SettingsContext.tsx:18-32 | the given settings if any, else violet without reduced motion (closed form; `Settings.SettingsProvider.constructor` installs it) |
| Settings.MergeFields | app/context/SettingsContext.tsx:45 | each field present in the partial overrides, each absent field is kept |
| Settings.MergeIdempotent | app/context/SettingsContext.tsx:45 | applying the same partial twice equals applying it once, and the empty partial changes nothing |
| Settings.MergeThen | app/context/SettingsContext.tsx:45 | two successive updates equal one update by their combination |
| Settings.AddClass | app/context/SettingsContext.tsx:41 | `classList.add` makes the class present and adds nothing else |
| Settings.ThemedClasses | app/context/SettingsContext.tsx:37-41 | after the effect the root holds the current theme class, none of the other theme classes, and its other classes untouched |
| Settings.SettingsProvider.UpdateSettings | app/context/SettingsContext.tsx:44-57 | the merged settings are set and sent whether or not the server fails, and loading ends false |
| Settings.SettingsProvider.ApplyTheme | app/context/SettingsContext.tsx:35-42 | the root classes become the themed classes of the current theme, the settings unchanged |
| AuthActions.Auth.Register | app/auth/actions.ts:30-62 | a missing field gives "All fields are required" and a taken email "Email already exists", the table unchanged; each fault maps to "Registration failed"; success adds exactly the user with the hashed password and sets the session to its id |
| AuthActions.Auth.Login | app/auth/actions.ts:64-93 | a missing field gives "All fields are required"; an unknown email and a wrong password give the same "Invalid credentials" without a session; the session is set exactly when the password compares equal; faults give "Login failed" |
| AuthActions.Auth.Logout | app/auth/actions.ts:95-98 | the session is cleared and the user is sent to the login page |
| AuthActions.Auth.RegisterThenLogin | app/auth/actions.ts:30-93 | registering a new email and then logging in with the same password both succeed, the table gains exactly that user with the hashed password, and the session is the new user's id; for a taken email registration is refused with the table unchanged, and the login succeeds exactly when the password matches the existing account, signing in as that account |
| ProfileInitials.Upper | app/components/ProfileModal.tsx:22 | lower-case ASCII letters become upper case, everything else is kept |
| ProfileInitials.UpperAll | app/components/ProfileModal.tsx:22 | upper-casing acts character by character and keeps the length |
| ProfileInitials.Initials | app/components/ProfileModal.tsx:18-23 | the initials have at most two characters |
| ProfileInitials.HeadsAreWordStarts | app/components/ProfileModal.tsx:19-21 | the first characters of the space-separated segments are exactly the word-start characters of the name, empty segments contributing nothing |
| ProfileInitials.InitialsAreWordStarts | app/components/ProfileModal.tsx:18-23 | the initials are the first two upper-cased word starts of the name |
| ProfileInitials.WordStartsAreWordChars | app/components/ProfileModal.tsx:19-21 | every initial is a character of the name and not a space |
| ProfileInitials.InitialsExamples | app/components/ProfileModal.tsx:18-23 | the empty name gives no initials; a one-word name gives its upper-cased first letter |
| ProfileInitials.TwoWords | app/components/ProfileModal.tsx:18-23 | two words give the two upper-cased first letters |

## Left out

- AES-CBC, SHA-256, UTF-8, `crypto.randomBytes`, bcrypt and JWT are not implemented. They are
  abstract function values. The IV is a parameter, and the session is a `Session` value or a field.
- Every `Lawful` precondition is a law of the standards the primitive follows. These laws are
  stated, not proved.
- MongoDB is a sequence of records processed sequentially. Query planning, concurrent upsert races,
  aggregation pipelines and the connection singleton in `lib/db.ts` are not modelled. A store
  failure appears only as the unique-index clash.
- Call ordering and async effects are not modelled: `connectDB` is treated as succeeding, and the
  `await`s become sequential steps.
- The ObjectId cast in the mood aggregation and a session with an undefined `userId` in the month
  query (Mongoose drops the undefined filter) are not modelled. A session is `Some(userId)` or
  nothing.
- `new Date(string)` parsing, local-time `toDateString`, `getMonth` and `getFullYear` are abstract
  functions (`dayKey`, `localYearMonth`, `yearMonth`, `dayOf`). An invalid date is `None`.
- Daylight-saving time and the floating-point day difference in the streak are not modelled. Days
  are integer day numbers, which removes the fractional-difference quirk across DST changes.
- Date.UTC's time clip (the ±8.64e15 ms bound) is not modelled: instants are unbounded integers.
- `saveEntry` never writes `images`. A new record gets the schema default `[]`, and an update leaves
  them as they were.
- `DiaryActions.EntryStore.GetMonthEntries`: its ensures ties the result to `MonthViews`. What that
  means (exactly the in-month records of the user) is the separate lemma
  `DiaryActions.MonthViewsExact`.
- `DiaryActions.EntryStore.GetUserStats`: the streak equals the reference streak only for an
  order-preserving day function, which is what a newest-first sort gives. Otherwise only the bounds
  are stated.
- `DiaryStats.Streak`: the reference equality is stated for days sorted newest first, which is what
  the store returns. Unsorted input is only bounded.
- `Settings.SettingsProvider.UpdateSettings`: the JavaScript spread also lets a present-but-undefined
  field override a set one. Partial fields are `Option`s, so that case is not modelled.
- `ProfileInitials.Initials`: the model indexes Unicode characters, while the source's `n[0]` and
  `slice(0, 2)` index UTF-16 code units. A word that starts with a character above U+FFFF (an emoji,
  say) gives the whole character in the model, but a lone high surrogate in the source.
- `Encryption.RoundTrip`: stated only for well-formed text. A Dafny `string` cannot hold a lone
  surrogate, while a JavaScript string can; Node's UTF-8 encoder turns one into U+FFFD, so in the
  source `decrypt(encrypt(s)) != s` for such `s`.
- `ProfileInitials.Upper`: upper-casing covers ASCII only. Unicode case mapping (including
  characters that expand) is not modelled.
- Toasts, focus movement, DOM rendering, router redirects beyond the returned target, and React
  re-render timing are not modelled. The focus target of the PIN pad is returned as a value.
- `verifyPassword` and the server `updateSettings` action are imported but not part of the shown
  code. Their outcome is a parameter (`verified`, `serverFails`).
- Guest-to-account sync is not present in the shown code and is not modelled.
- JSON parsing of localStorage is the I/O boundary. The slot is `Absent`, `Stored(entries)` or
  `Unparseable`.
- `EntryModel.Create` models document creation under the schema (validation and defaults). The
  diary actions never create documents that way: the upsert inserts through
  `EntryModel.InsertChecked` with the schema defaults and no validation, so `Create` stands alone.
- `lib/db.ts`, `lib/auth.ts`, `models/User.ts`, `models/VentWord.ts`, `app/utils/cloudinary.ts`,
  `scripts/fix-db.ts`, the Airlock animation and the remaining UI pages and components are not part
  of this model. The user table is assumed keyed by unique email.
