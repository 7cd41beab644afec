# TeamWork attendance core, modelled in Dafny

TeamWork is an employee attendance application: a React front end over a
Supabase store. Employees check in and out with a (simulated) fingerprint
scan. Administrators create an organization, and employees join it with
its six-character code. Each organization keeps a registry of teams. This
project models the logic that sits between the user interface and the
store, and proves properties of it:

- the daily attendance statistics and the "Recent Activity" list
  (`attendance_dashboard.dfy`);
- the check-in/check-out lifecycle, the local list of records, and the
  resolution of a signed-in user into onboarding, administrator or employee
  (`attendance_app.dfy`);
- organization codes, creating an organization and joining one
  (`org_code.dfy`, `organization_setup.dfy`);
- the administrator's dashboard: loading the organization and regenerating
  its code (`admin_dashboard.dfy`);
- the team registry's local state (`team_management.dfy`).

Supporting modules:

- `text.dfy` gives the JavaScript string operations the code relies on
  (`trim`, `toUpperCase`, `split`, `slice`, the avatar initials).
- `store.dfy` gives the shape of a store reply.
- `entities.dfy` gives the stored rows.

Timestamps are integer milliseconds and calendar dates are `YYYY-MM-DD`
strings. Nothing about the store is modelled. The reply to every store call
is an argument of the operation: a row, no row, or an error. Each operation
returns the list of calls it issued, so "stops at the first error" and
"issues no further lookups" are stated on that list. Components whose
fields the source updates step by step are classes: `AttendanceApp.App`,
`AdminDashboard.Dashboard` and `TeamManagement.Registry`. Random draws
are an argument too, as a sequence of alphabet indices.

## Model

| member | source | states |
|---|---|---|
| AttendanceDashboard.TodayRecords | src/components/AttendanceDashboard.tsx:31 | every kept record is one of the records and is dated today, every record dated today is kept, and the number kept is the number of records dated today |
| AttendanceDashboard.TodayRecordsMultiplicity | src/components/AttendanceDashboard.tsx:31 | a record dated today is kept exactly as many times as it occurs; a record of another day is never kept |
| AttendanceDashboard.TodayRecordsAppend | src/components/AttendanceDashboard.tsx:31 | the filter keeps list order: the today-records of a concatenation are those of its first part followed by those of its second |
| AttendanceDashboard.CountStatus | src/components/AttendanceDashboard.tsx:33-34 | the number of records with a status is at most the length of the list |
| AttendanceDashboard.StatusCountsPartition | src/components/AttendanceDashboard.tsx:33-34 | the checked-in, checked-out and absent counts of a list add up to its length |
| AttendanceDashboard.CheckedInCount | src/components/AttendanceDashboard.tsx:33 | "Currently In" is at most the number of records dated today, and is zero exactly when no record dated today is 'checked-in' |
| AttendanceDashboard.CheckedOutCount | src/components/AttendanceDashboard.tsx:34 | the checked-out count is at most the number of records dated today, and is zero exactly when no record dated today is 'checked-out' |
| AttendanceDashboard.PresentCount | src/components/AttendanceDashboard.tsx:33-34 | "Present Today" (checked in plus checked out) is at most the number of today's records, and equals it exactly when no today-record has status 'absent' |
| AttendanceDashboard.AbsentCount | src/components/AttendanceDashboard.tsx:35 | the absent count is the roster size minus the number of records dated today, and is negative exactly when there are more such records than employees |
| AttendanceDashboard.AbsentPlusPresent | src/components/AttendanceDashboard.tsx:33-35 | absent plus present equals the roster size if and only if no today-record has status 'absent' |
| AttendanceDashboard.AbsentCanBeNegative | src/components/AttendanceDashboard.tsx:35 | the absent count is not clamped: one record today and an empty roster give -1 |
| AttendanceDashboard.WorkDuration | src/components/AttendanceDashboard.tsx:49-55 | the '--' placeholder appears exactly when either timestamp is missing; otherwise check-in plus the duration is check-out |
| AttendanceDashboard.TotalToday | src/components/AttendanceDashboard.tsx:36-43 | the total of today's records equals one sum over all records that adds the worked time of each record dated today with both timestamps and nothing for the others |
| AttendanceDashboard.TotalTodayOrderIndependent | src/components/AttendanceDashboard.tsx:36-43 | the total worked time today is the same for any reordering of the records |
| AttendanceDashboard.SumOfPermutation | src/components/AttendanceDashboard.tsx:38-43 | a sum over records is invariant under permutation |
| AttendanceDashboard.TotalWorkedZero | src/components/AttendanceDashboard.tsx:37 | with no record having both timestamps, the total is 0 |
| AttendanceDashboard.TotalWorkedNonNegative | src/components/AttendanceDashboard.tsx:36-43 | when no completed record ends before it starts, the total is non-negative |
| AttendanceDashboard.RecordFor | src/components/AttendanceDashboard.tsx:126 | there is no record exactly when no record of today is the employee's; a record found is one of today's and is theirs |
| AttendanceDashboard.RecordForIsFirstMatch | src/components/AttendanceDashboard.tsx:126 | the record found is the first of today's records, in list order, that carries the employee's id |
| AttendanceDashboard.BadgeOf | src/components/AttendanceDashboard.tsx:155-162 | no record gives Absent, a 'checked-in' record gives Present, a record with any other status gives Completed, each in both directions |
| AttendanceDashboard.BadgeForEmployee | src/components/AttendanceDashboard.tsx:155-162 | the badge is Absent if and only if the employee has no record today, Present if and only if their first record is 'checked-in', Completed if and only if it has any other status |
| AttendanceDashboard.RowFor | src/components/AttendanceDashboard.tsx:125-162 | a roster row shows the employee's name and department, the check-in and check-out of their first record of today (both missing without one), the worked time of those two instants (missing exactly when either is) and that record's badge |
| AttendanceDashboard.ScenarioThreeEmployees | src/components/AttendanceDashboard.tsx:31-43 | a three-person day (one checked in, one finished after eight hours, one missing) gives present 2, absent 1, checked in 1, eight hours total and an Absent badge for the missing employee |
| AttendanceDashboard.EffectiveTime | src/components/AttendanceDashboard.tsx:182-184 | the sort key is the check-out time when there is one, else the check-in time, else 0 |
| AttendanceDashboard.SortByRecency | src/components/AttendanceDashboard.tsx:180-185 | sorts the caller's array in place by non-increasing effective time (check-out, else check-in, else 0) and keeps the same multiset of records |
| AttendanceDashboard.MoveForward | src/components/AttendanceDashboard.tsx:181-185 | exchanging a record with a less recent predecessor keeps the sort's ordering facts |
| AttendanceDashboard.SettledInOrder | src/components/AttendanceDashboard.tsx:181-185 | a record whose predecessor is at least as recent leaves the sorted prefix in order |
| AttendanceDashboard.SwapAdjacent | src/components/AttendanceDashboard.tsx:181 | exchanges two neighbouring records and keeps the multiset of the array |
| AttendanceDashboard.RecentActivity | src/components/AttendanceDashboard.tsx:180-196 | shows min(5, n) entries; the array is permuted in place into most-recent-first order, and entry i describes the record now at position i |
| AttendanceDashboard.DisplayName | src/components/AttendanceDashboard.tsx:188-192 | an entry whose employee id matches no employee is shown as "Unknown Employee"; the shown name is never empty |
| AttendanceDashboard.DisplayNameOfFirstMatch | src/components/AttendanceDashboard.tsx:188-192 | a known employee is shown by the name of the first matching roster entry, or as "Unknown Employee" when that entry's name is empty, whatever later entries hold |
| AttendanceDashboard.EntryFor | src/components/AttendanceDashboard.tsx:194-199 | an entry shows the record's employee by `DisplayName` and says "checked out" exactly when the record has a check-out, and shows the check-out time, else the check-in time; a shown time is the record's sort key |
| AttendanceApp.NextAction | src/components/AttendanceApp.tsx:376 | the scanner checks out exactly when today's record exists with status 'checked-in', and checks in otherwise |
| AttendanceApp.ScannerDisabled | src/components/AttendanceApp.tsx:378 | the scanner is disabled exactly when today's record is 'checked-out', a day on which the action rule would offer a second check-in |
| AttendanceApp.EnabledScannerAction | src/components/AttendanceApp.tsx:376-378 | on an enabled scanner, a check-in is offered exactly when there is no record today or its status is 'absent' |
| AttendanceApp.DateKey | src/components/AttendanceApp.tsx:169 | the date key is the first part of the ISO timestamp split on 'T': the longest prefix without 'T' |
| AttendanceApp.CheckInRow | src/components/AttendanceApp.tsx:175-181 | the inserted row is the employee's, checked in now, dated today, 'checked-in', with a verified fingerprint |
| AttendanceApp.ApplyCheckOut | src/components/AttendanceApp.tsx:202-206 | the check-out sets the check-out time to now and the status to 'checked-out', changes no other field, and disables the scanner |
| AttendanceApp.CheckInThenCheckOut | src/components/AttendanceApp.tsx:173-207 | the check-in row records now, today, 'checked-in' and a verified fingerprint; a check-out then changes only check-out and status, disables the scanner, and the worked time is the difference of the two instants |
| AttendanceApp.ReplaceById | src/components/AttendanceApp.tsx:217-219 | the list keeps its length and order; entries with the returned record's id become that record and all others stay |
| AttendanceApp.ReplaceByIdKeepsIds | src/components/AttendanceApp.tsx:217-219 | the replacement keeps every position's id, is idempotent, and changes nothing when no id matches |
| AttendanceApp.NeedsSetupAsWritten | src/components/AttendanceApp.tsx:82-110 | as written, the flag is set when no role row or no usable employee row is found and is otherwise kept: once set, it stays set |
| AttendanceApp.NeedsSetupAfter | src/components/AttendanceApp.tsx:106-113 | the corrected rule of the finding below, not what the code does: onboarding is needed exactly when the lookup found no role or usable employee row, or an error left an earlier need standing; a resolved lookup clears it |
| AttendanceApp.ScreenOf | src/components/AttendanceApp.tsx:237-268 | the checks in source order, each in both directions: loading shows the spinner; else a set setup flag shows onboarding; else a missing employee or role row shows "profile pending"; else an 'admin' role shows the administrator screen and any other role the employee screen |
| AttendanceApp.SetupScreenSticksAsWritten | src/components/AttendanceApp.tsx:248-249 | as written, a user who completes onboarding and is then found as an administrator still sees the setup screen |
| AttendanceApp.ResolvedUserLeavesSetup | src/components/AttendanceApp.tsx:106-118 | with the flag cleared on resolution, a resolved user reaches the screen of their role |
| AttendanceApp.App.constructor | src/components/AttendanceApp.tsx:52-57 | starts loading, with nothing resolved and no records |
| AttendanceApp.App.FetchEmployeeData | src/components/AttendanceApp.tsx:65-162 | an error other than "no rows" is reported; no role row means onboarding with no further lookup; a missing employee row or one with an empty organization code means onboarding; the setup flag is kept as it was on every other path, so a resolved lookup does not clear it; an administrator stops before any attendance lookup; an employee loads today's record, dated by `AttendanceApp.DateKey` of the clock's ISO string as on check-in, and all records |
| AttendanceApp.App.HandleFingerprintAuth | src/components/AttendanceApp.tsx:164-235 | does nothing without an employee, or for a check-out without today's record; a check-in inserts the check-in row and prepends the returned record; a check-out updates today's record by id and replaces it in the list; an error changes nothing |
| AttendanceApp.App.OnScannerAuthenticated | src/components/AttendanceApp.tsx:374-378 | a disabled scanner, or no employee, changes nothing and issues no call; with no record today or an 'absent' one it checks in, and with a 'checked-in' record it checks out, with the calls, error and new state of `HandleFingerprintAuth` for that action |
| OrgCode.GenerateOrgCode | src/components/OrganizationSetup.tsx:26-33 | the loop builds exactly the code spelled by the draws, and that code is six characters from `[A-Z0-9]` |
| OrgCode.GeneratedCodesAreValid | src/components/OrganizationSetup.tsx:26-33 | every sequence of six draws spells a valid code |
| OrgCode.EveryValidCodeIsDrawn | src/components/OrganizationSetup.tsx:27-30 | every valid code is spelled by some six draws |
| OrgCode.CodeOfInjective | src/components/OrganizationSetup.tsx:27-30 | different draws spell different codes |
| OrgCode.AlphabetShape | src/components/OrganizationSetup.tsx:27 | every symbol of the 36-symbol alphabet is in `[A-Z0-9]` and is found back at its own index |
| OrganizationSetup.LocalPart | src/components/OrganizationSetup.tsx:75 | the email's local part is the first part of splitting on '@': the longest prefix without '@' |
| OrganizationSetup.NameFor | src/components/OrganizationSetup.tsx:75 | the name is the non-empty profile name, else the non-empty email local part, else the fallback; with a non-empty fallback it is never empty |
| OrganizationSetup.EmailOf | src/components/OrganizationSetup.tsx:76 | the stored email is the user's email, or the empty string when there is none |
| OrganizationSetup.EmployeeCode | src/components/OrganizationSetup.tsx:74 | the employee code is the tag followed by the first eight characters of the user id, or all of it when shorter |
| OrganizationSetup.OnboardedEmployee | src/components/OrganizationSetup.tsx:72-80 | the creator's row has code `ADMIN_` plus the id prefix, the name fallback ending in 'Admin', department 'Administration' and role 'admin'; a joiner's row (lines 140-148) has `EMP_`, 'Employee', 'General' and 'employee'; both carry the user's id and email, a non-empty name and the organization's code |
| OrganizationSetup.CreateOrganization | src/components/OrganizationSetup.tsx:35-100 | a blank name does nothing; otherwise the organization (trimmed name, valid generated code, active), the admin role and the admin's employee row are written in that order, and the first error stops the later writes and is shown |
| OrganizationSetup.CheckCode | src/components/OrganizationSetup.tsx:116-123 | no row or an error is "invalid"; a row is expired exactly when its expiry is strictly before now |
| OrganizationSetup.ExpiryInstantIsAccepted | src/components/OrganizationSetup.tsx:121 | a code expiring at the very instant of joining is accepted, and one millisecond later it is expired |
| OrganizationSetup.JoinOrganization | src/components/OrganizationSetup.tsx:102-168 | a blank code does nothing; the lookup uses the upper-cased, untrimmed code; an unknown code fails as invalid and an expired one as expired with no write; otherwise the employee role and the employee row are inserted in that order, and the first error stops the later write |
| OrganizationSetup.TypedCodeNormalisation | src/components/OrganizationSetup.tsx:112 | a code typed with any of its letters in lower case looks up the code it was generated as; a leading space is kept by the upper-casing and makes the looked-up code invalid |
| AdminDashboard.StoredAfterUpdate | src/components/AdminDashboard.tsx:103-109 | the update writes the new code and expiry into the row and leaves every other column |
| AdminDashboard.LocalAfterRegenerate | src/components/AdminDashboard.tsx:113 | the local copy changes its code only |
| AdminDashboard.LocalCopyKeepsOldExpiry | src/components/AdminDashboard.tsx:103-113 | after a regeneration the local copy and the stored row agree on the code, and agree on everything exactly when the old expiry equals the new one |
| AdminDashboard.Dashboard.constructor | src/components/AdminDashboard.tsx:39-42 | the dashboard starts loading, for the administrator's organization code, with no organization and no employees |
| AdminDashboard.Dashboard.FetchOrganizationData | src/components/AdminDashboard.tsx:49-81 | the organization lookup must return a row, and otherwise the error is shown and nothing changes; then the employees are loaded, with "no rows" giving an empty list and an error keeping the old list |
| AdminDashboard.Dashboard.RegenerateCode | src/components/AdminDashboard.tsx:93-127 | does nothing without an organization; otherwise writes a valid six-character code with an expiry thirty days after now; on success only the local code changes, and on an error nothing changes |
| Store.MessageOr | src/components/OrganizationSetup.tsx:94 | the message shown for a failure is the error's message, or the fallback when that is empty; with a non-empty fallback it is never empty |
| Text.ToUpper | src/components/OrganizationSetup.tsx:112 | upper-casing keeps the length (what it does per character is stated by `Text.ToUpperIdempotent` and `OrganizationSetup.TypedCodeNormalisation`) |
| Text.Prefix | src/components/OrganizationSetup.tsx:74 | `slice(0, n)` is the first n characters, or the whole string when it is shorter |
| Text.Split | src/components/AdminDashboard.tsx:161 | a split has at least one part and no part contains the separator (joining the parts back: `Text.JoinSplit`) |
| Text.Before | src/components/OrganizationSetup.tsx:75 | the part before the first separator is a prefix without the separator, followed in the string by the separator unless it is the whole string |
| Text.Initials | src/components/AdminDashboard.tsx:161 | the avatar initials are exactly the characters that begin a space-separated word of the name, in order, and are no longer than the name |
| Text.Trim | src/components/TeamManagement.tsx:122 | trimming removes exactly the leading and trailing JavaScript whitespace and keeps the infix between them |
| Text.BlankIffAllWhitespace | src/components/TeamManagement.tsx:122 | a name trims to empty exactly when every character of it is whitespace |
| Text.TrimIdempotent | src/components/OrganizationSetup.tsx:48 | trimming a trimmed name changes nothing |
| Text.JoinSplit | src/components/AttendanceDashboard.tsx:30 | splitting on a character and joining on it gives the string back |
| Text.ToUpperIdempotent | src/components/OrganizationSetup.tsx:112 | upper-casing is idempotent, and a string without lower-case letters is left as it is |
| TeamManagement.RowsOf | src/components/TeamManagement.tsx:65 | the rows of a reply, or the empty list for "no rows" |
| TeamManagement.SelectionAfterLoad | src/components/TeamManagement.tsx:65-68 | with teams loaded and nothing selected, the first team becomes selected; an existing selection is kept |
| TeamManagement.SelectionAfterLoadProperties | src/components/TeamManagement.tsx:65-68 | after a load the selection is the old one or a loaded team's id, and loading the same teams again changes nothing |
| TeamManagement.SelectionAfterDelete | src/components/TeamManagement.tsx:182-185 | after a deletion and its reload, a previously set selection is cleared exactly when it was the deleted team; only an unset selection is replaced by the first reloaded team |
| TeamManagement.DeleteSelectionRules | src/components/TeamManagement.tsx:182-185 | deleting the selected team clears the selection even when teams remain; deleting another team keeps it; a team absent from the reload is never selected |
| TeamManagement.ToMembers | src/components/TeamManagement.tsx:99-105 | the transform keeps length and order and copies the row id and the employee's id, name, email and role |
| TeamManagement.ToMembersAppend | src/components/TeamManagement.tsx:99-105 | the transform of a concatenation is the concatenation of the transforms |
| TeamManagement.WithMembers | src/components/TeamManagement.tsx:107-110 | the member map gets the team's new list; every other key keeps its presence and its list |
| TeamManagement.WithMembersOverwriteAndCommute | src/components/TeamManagement.tsx:107-110 | a later load of the same team overwrites an earlier one; loads of different teams commute |
| TeamManagement.Registry.constructor | src/components/TeamManagement.tsx:36-40 | the registry starts for its organization code with no teams, no members, an empty name input, not loading, and nothing selected |
| TeamManagement.Registry.LoadTeams | src/components/TeamManagement.tsx:55-79 | the teams replace the list ("no rows" gives an empty list) and the selection follows the load rule; an error is shown and changes nothing; loading ends |
| TeamManagement.Registry.LoadTeamMembers | src/components/TeamManagement.tsx:81-119 | the transformed rows become this team's entry in the member map and other entries stay; an error changes nothing |
| TeamManagement.Registry.CreateTeam | src/components/TeamManagement.tsx:121-154 | a blank name does nothing; otherwise the trimmed, non-empty name is inserted; on success the input is cleared and the teams are reloaded, and on an error nothing else changes |
| TeamManagement.Registry.DeleteTeam | src/components/TeamManagement.tsx:156-196 | a declined confirmation does nothing; member rows are deleted before the team row, and an error at either step stops the rest and changes nothing; on success the teams are reloaded and the selection follows the deletion rule |

## Left out

- Store behaviour is not modelled. Each store call's reply is an argument; row-level security, the queries' filters and the store-side ordering are not part of this model.
- `src/integrations/supabase/types.ts` is not part of this model. It only declares row shapes, which `entities.dfy` mirrors.
- `src/components/FingerprintScanner.tsx` is not part of this model. It is a timer-driven animation; only its `onAuthenticated` callback and `isDisabled` flag are modelled, as `AttendanceApp.App.OnScannerAuthenticated` and `AttendanceApp.ScannerDisabled`.
- `Math.random` is replaced by the sequence of indices it drew. Codes are not checked for collisions, and neither does the source check them.
- The clock is an argument: `now` in milliseconds, with its ISO form `nowIso` beside it. Formatting milliseconds as an ISO string is not modelled.
- Hours are floating point in the source and are displayed with `toFixed(1)`. The model keeps exact integer milliseconds.
- Locale formatting of dates and times, toast texts other than the error messages, the clipboard copy of the code, the `confirm` dialog (an argument) and JSX rendering are left out.
- Concurrency is left out. Overlapping check-ins and a two-step team delete that another client interleaves with are not modelled.
- `assignUserToTeam` (src/components/TeamManagement.tsx:198-206) only shows a "coming soon" message and is not modelled.
- React effects are separate calls. `TeamManagement.Registry.LoadTeamMembers` stands for the effect that loads a newly selected team's members. Reloads started by create and delete are folded into those methods, with their reply as an argument.
- The loading flag of the onboarding form is not modelled. It only disables the buttons.
- Text.ToUpper: upper-cases ASCII letters only. JavaScript's `toUpperCase` also maps other letters (`ß` becomes `SS`, which changes the length); generated codes are ASCII. Its own contract states only the length; the per-character mapping is in its body and its consequences are the lemmas `Text.ToUpperIdempotent` and `OrganizationSetup.TypedCodeNormalisation`.
- AttendanceDashboard.RecentActivity: sorts its array in place, and in the source that array is the application's own `attendanceRecords` state (src/components/AttendanceApp.tsx:385 passes it to the dashboard), so rendering the dashboard also reorders the application's list. `AttendanceApp.App.attendanceRecords` is a separate value kept in store order; that aliasing is not modelled. Its contract also inherits the gap of `AttendanceDashboard.SortByRecency`: it does not state which of several equally recent records are shown, or in what order, although the stable `Array.prototype.sort` of the source shows them in their input order.
- OrganizationSetup.EmployeeCode: `slice(0, 8)` counts UTF-16 code units, while a Dafny `char` is a whole Unicode scalar value; for ids with characters outside the Basic Multilingual Plane the source can cut a surrogate pair that the model keeps whole. Generated user ids are ASCII.
- Text.Initials: `n[0]` is the first UTF-16 code unit of a word, not its first Unicode scalar value; for names that begin a word with a character outside the Basic Multilingual Plane the source shows half a surrogate pair where the model shows the whole character.
- AttendanceDashboard.SortByRecency: does not state the order of records with equal effective time. The adjacent-exchange sort keeps ties in order, like the stable `Array.prototype.sort`, but its contract only states ordering and permutation.
- OrganizationSetup.CheckCode: a stored expiry is an integer instant. The schema in `src/integrations/supabase/types.ts` declares `expires_at` a non-null string, so no null case is modelled; parsing that string into an instant is not modelled.
- Creating an organization does not write `expires_at`; its value comes from the store's default and is not modelled.
- AttendanceDashboard.AbsentPlusPresent: "absent plus present equals the roster" fails whenever a today-record has status 'absent', whatever the number of records per employee. The lemma states that exact condition.

## Findings

| source | as written | input that shows it | evidently intended | confidence | as-written member | corrected member |
|---|---|---|---|---|---|---|
| src/components/AttendanceApp.tsx:82-87, 106-110, 248-249 | `fetchEmployeeData` sets `needsSetup` to true when onboarding is needed but never sets it back to false; onboarding completion re-runs `fetchEmployeeData` | a user with no role row completes "create organization"; the re-run finds an admin role and an employee row, yet `needsSetup` stays true and the setup screen is rendered again | a resolved lookup clears `needsSetup`, so the user reaches the dashboard of their role; `AttendanceApp.App.FetchEmployeeData` follows the code as written, and `AttendanceApp.NeedsSetupAfter` is the corrected rule | medium; not executed | AttendanceApp.SetupScreenSticksAsWritten | AttendanceApp.ResolvedUserLeavesSetup |
