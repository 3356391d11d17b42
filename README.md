# Protein tracker core, modelled in Dafny

This project models the logic beneath a React/Firebase app for logging daily
protein. It covers five parts.

- **Spoken-entry parser** (`src/utils/voiceParser.js`). It turns a voice
  transcript into an amount in grams and a food label.
  - The unit pattern, the fallback number pattern and the filler-phrase
    pattern are modelled as hand-written scanners over `seq<char>`. The
    JavaScript classes `\d`, `\w` (for `\b`) and `\s` are explicit, and the
    `i` flag is ASCII case folding.
  - The removal of the matched span comes in three readings. One compiles the
    span into a regular expression, as the code does. One removes its first
    occurrence as literal text. The corrected parser cuts the span out where
    it was matched, as evidently intended. See "## Findings".
- **Goal calculator and recompute policy** (`src/contexts/AuthContext.jsx`).
  - The Mifflin–St Jeor based daily goal is computed over `real`.
  - The auth provider is a class whose stored profiles are updated on sign-in
    (recompute when the cached age is stale, or create the base profile) and
    by `updateProfile` (recompute whenever the merged profile is complete).
- **Protein log** (`src/hooks/useProteinData.js`).
  - A class owns the `logs` collection. It adds, edits and removes entries.
    The user's entries are read back newest first, as the query orders them.
  - The per-day queries filter by the `yyyy-MM-dd` bucket, sort newest first
    (a stable sort, as `Array.prototype.sort` is, and proved stable) and sum the amounts.
- **History view** (`src/components/FullHistoryView.jsx`).
  - The sort, date-range and search pipeline.
  - The paginated prefix.
  - The `visibleCount` state as a class.
  - The `reduce` that groups entries under day headings, as a method with a
    loop.
  - A proof that `yyyy-MM-dd` strings compare chronologically, per section
    5.1 of RFC 3339.
- **Profile forms** (`src/components/ProfileView.jsx`,
  `src/components/OnboardingView.jsx`).
  - The first-failure-wins validation chain.
  - Username normalisation.
  - The no-change short-circuit.
  - The username registry as a class over a map.
  - The submit handlers as methods that update the page state, the registry
    and the auth provider.

Files: `options.dfy` (Option), `text.dfy` (character classes, `trim`, ASCII
case), `voice_parser.dfy`, `voice_examples.dfy` (worked transcripts),
`goal.dfy`, `profiles.dfy`, `log_entries.dfy`, `protein_data.dfy`,
`history.dfy`, `profile_forms.dfy`.

Some things become parameters instead of calls: the current age (`ageOf`,
standing for `differenceInYears(getNow(), new Date(dob))`), the day bucket of
an entry, the clock (`now`), and the fuzzy search (`search`, standing for
Fuse.js).

Where the documentation and the code disagree, the model follows the code:

- The doc comment at `src/utils/voiceParser.js:8` shows the label
  "chicken breast" in lower case. The code upper-cases the first character
  (line 57), which gives "Chicken breast".
- For 70 kg, 175 cm, age 25 and not "Female", the code's formula gives a BMR
  of 1673.75 and a goal of 162 g (`ProteinGoal.WorkedExample`).
- Only the listed filler phrases are removed
  (`VoiceParser.StripFillersKeepsUncovered`), so an article such as the "a"
  in "I drank a Chocolate Milkshake ..." stays in the label.

## Model

| member | source | states |
|---|---|---|
| VoiceParser.ParseWith | src/utils/voiceParser.js:10-43 | Null, non-string or empty input gives null. Any result has a non-negative amount and a non-empty label. |
| VoiceParser.ParseNoneIff | src/utils/voiceParser.js:21-29 | The parser returns null exactly when the lower-cased, trimmed transcript has neither a unit match nor a bare-number match anywhere. |
| VoiceParser.ParseUnit | src/utils/voiceParser.js:19-21 | When a unit match exists, the amount is the numeral of the leftmost unit match, even if a bare number comes earlier. The label is built from that whole match. |
| VoiceParser.ParseFallback | src/utils/voiceParser.js:23-33 | With no unit match anywhere, the amount is the numeral of the leftmost number bounded by `\b` on both sides, taken with its fraction when present. The label is built from it. |
| VoiceParser.FindUnitMatch | src/utils/voiceParser.js:19-21 | What it returns is a match of `(\d+(?:\.\d+)?)\s*(?:g\|grams?\|gram)\b` with the numeral as the capture group. |
| VoiceParser.FindUnitMatchSpec | src/utils/voiceParser.js:19-21 | The match found is leftmost. None means no position starts a unit match. |
| VoiceParser.UnitMatchAtComplete | src/utils/voiceParser.js:19 | A unit match anchored at a position is unique, so the scanner's choice is the regex engine's. |
| VoiceParser.FindBareMatch | src/utils/voiceParser.js:26-27 | What it returns is a match of `\b(\d+(?:\.\d+)?)\b`. |
| VoiceParser.FindBareMatchSpec | src/utils/voiceParser.js:26-29 | The match found is leftmost, and the longest at its position, as backtracking tries the fraction first. None means there is no match. |
| VoiceParser.BareMatchAtComplete | src/utils/voiceParser.js:26 | Every fallback match anchored at a position is no longer than the one the scanner finds. |
| VoiceParser.NumeralEnd | src/utils/voiceParser.js:19 | The end it returns delimits a numeral: digits, optionally a point and more digits. |
| VoiceParser.NumeralEndIs | src/utils/voiceParser.js:19 | Any numeral followed by neither a digit nor a point is the one NumeralEnd finds. |
| VoiceParser.NumeralValue | src/utils/voiceParser.js:31-36 | The exact decimal value that `parseFloat` approximates, which is never negative. |
| VoiceParser.FirstAlternative | src/utils/voiceParser.js:49 | An alternation followed by `\b` yields the first alternative, in source order, that occurs followed by a boundary. No earlier alternative does. |
| VoiceParser.RemoveFirstCuts | src/utils/voiceParser.js:48 | Removal cuts out the first occurrence of the pattern and keeps the rest of the text in order. |
| VoiceParser.LiteralPatternAt | src/utils/voiceParser.js:48 | Read literally, an occurrence is a piece of text equal to the span up to ASCII case. |
| VoiceParser.SpanOccursInText | src/utils/voiceParser.js:13-48 | The span matched in the normalised text occurs in the original transcript at the same place, shifted by the trimmed prefix, under either reading. |
| VoiceParser.LiteralRemovalFindsSpan | src/utils/voiceParser.js:48 | Read literally, the removal always finds the span, no later than where it was matched. What it removes equals the span up to case. |
| VoiceParser.RemovalCutsSpanLength | src/utils/voiceParser.js:48 | Either reading removes exactly as many characters as the span has. |
| VoiceParser.FillerAtSound | src/utils/voiceParser.js:49 | What the filler scan finds at a position is a whole-word, case-insensitive occurrence of a filler phrase. |
| VoiceParser.FillerAtComplete | src/utils/voiceParser.js:49 | The filler scan finds every filler occurrence that starts at a position. |
| VoiceParser.FillerOccurrencesApart | src/utils/voiceParser.js:49 | Two whole-word filler occurrences never overlap, so the global replace is well defined. |
| VoiceParser.StripFillersKeepsUncovered | src/utils/voiceParser.js:49 | The global filler replace keeps exactly the characters that lie in no whole-word, case-insensitive occurrence of "i ate", "i had", "i drank", "with" or "of protein", in order. |
| VoiceParser.CollapseSpacesFrom | src/utils/voiceParser.js:53 | Collapsing `\s{2,}` to one space leaves no two white-space characters together, keeps every other character in order, and is empty only for an empty input. |
| VoiceParser.CollapseIdempotent | src/utils/voiceParser.js:53 | Collapsing twice is collapsing once. |
| VoiceParser.TrimNonAlnum | src/utils/voiceParser.js:53 | After the edge replace, the label is empty or starts and ends with an ASCII letter or digit. |
| VoiceParser.TrimNonAlnumShape | src/utils/voiceParser.js:53 | The result is the infix left after dropping the longest non-alphanumeric prefix and suffix. |
| VoiceParser.ResidueShape | src/utils/voiceParser.js:47-53 | The cleaned residue is empty, or it starts and ends with a letter or digit and has no run of two white-space characters. |
| VoiceParser.CapitalizeShape | src/utils/voiceParser.js:56-60 | An empty residue gives "Voice Entry". Otherwise only the first character is upper-cased, and the rest keeps its case. |
| VoiceParser.LabelShape | src/utils/voiceParser.js:46-63 | The label is never empty. It is "Voice Entry" when nothing remains. Otherwise it is the residue with its first character upper-cased, alphanumeric at both ends and single-spaced. |
| VoiceParser.TidyShape | src/utils/voiceParser.js:49-53 | Tidying a cut transcript leaves nothing, or text with a letter or digit at each end and no two white-space characters together. |
| VoiceParser.ParseMatched | src/utils/voiceParser.js:10-43 | The corrected parser gives null for null or empty input. Any result has a non-negative amount and a non-empty label. |
| VoiceParser.CutMatchIsSpan | src/utils/voiceParser.js:48 | The corrected removal cuts exactly the characters of the transcript that the span was matched against, which equal the span up to case, and keeps the rest in order. |
| VoiceParser.ParseMatchedAgrees | src/utils/voiceParser.js:10-43 | The corrected parser returns an entry exactly when the source's parser does, with the same amount. |
| VoiceParser.ParseMatchedLabel | src/utils/voiceParser.js:46-63 | The corrected label is the tidied, capitalised transcript with the matched piece cut out where it was matched. |
| VoiceParser.NormalizedIsLower | src/utils/voiceParser.js:13 | Any piece of the normalised text is already lower case. |
| VoiceExamples.NoUnitWithoutG | src/utils/voiceParser.js:19 | A transcript without a `g` has no unit match. |
| VoiceExamples.StripNothing | src/utils/voiceParser.js:49 | Without a word that could start a filler phrase, the filler replace changes nothing. |
| VoiceExamples.ChickenExample | src/utils/voiceParser.js:23-33 | "chicken 30" gives amount 30 and label "Chicken" under either reading of the removal. |
| VoiceExamples.GramsOnlyExample | src/utils/voiceParser.js:56-60 | "30g" gives amount 30 and the fallback label "Voice Entry". |
| VoiceExamples.DottedAsWritten | src/utils/voiceParser.js:48 | As written, "1x5 1.5" gives amount 1.5 with the label "1.5": the span "1.5" used as a regex removes "1x5". |
| VoiceExamples.DottedCorrected | src/utils/voiceParser.js:48 | With literal removal, "1x5 1.5" gives amount 1.5 with the label "1x5". |
| VoiceExamples.DottedMatched | src/utils/voiceParser.js:48 | With the span cut where it was matched, "1x5 1.5" gives amount 1.5 with the label "1x5". |
| VoiceExamples.ShiftedAsWritten | src/utils/voiceParser.js:48 | As written, and also with literal removal, "x30 30" gives amount 30 with the label "X 30": the "30" removed is the one inside "x30", not the matched one. |
| VoiceExamples.ShiftedMatched | src/utils/voiceParser.js:48 | With the span cut where it was matched, "x30 30" gives amount 30 with the label "X30". |
| Text.TrimSpec | src/utils/voiceParser.js:50 | `trim` leaves a string that is empty or neither starts nor ends with white space. |
| Text.TrimShape | src/utils/voiceParser.js:50 | The trim of a string is its infix between a white-space prefix and a white-space suffix. |
| Text.TrimIdempotent | src/utils/voiceParser.js:53 | Trimming twice is trimming once. |
| Text.TrimEmptyIffAllSpace | src/components/ProfileView.jsx:42 | A string trims to the empty string exactly when it is all white space. |
| Text.TrimLowerCommute | src/utils/voiceParser.js:13 | `toLowerCase().trim()` equals `trim().toLowerCase()`. |
| Text.LowerIdempotent | src/components/ProfileView.jsx:55 | Lower-casing twice is lower-casing once. |
| ProteinGoal.SexOffset | src/contexts/AuthContext.jsx:29-30 | The sex term is -161 exactly for the string "Female" and +5 for every other value, including a missing one. |
| ProteinGoal.Round | src/contexts/AuthContext.jsx:46 | `Math.round` gives the integer within half a unit, with halves rounded up. |
| ProteinGoal.CalculateProteinGoal | src/contexts/AuthContext.jsx:24-47 | The goal is never below 60. It is exactly 120 when dob, height or weight is missing or falsy. Otherwise it is max(round(q), 60) with the BMR-derived q. |
| ProteinGoal.RoundMonotone | src/contexts/AuthContext.jsx:46 | Rounding never reverses an order. |
| ProteinGoal.GoalMonotoneInGrams | src/contexts/AuthContext.jsx:33-46 | For a fixed age, a larger BMR never gives a smaller goal. |
| ProteinGoal.GoalMonotoneInWeight | src/contexts/AuthContext.jsx:33-46 | For a fixed age and sex, a heavier user never gets a smaller goal. |
| ProteinGoal.GoalMonotoneInHeight | src/contexts/AuthContext.jsx:33-46 | For a fixed age and sex, a taller user never gets a smaller goal. |
| ProteinGoal.FemaleGoalNotAbove | src/contexts/AuthContext.jsx:29-46 | With all else equal, the goal for "Female" is never above the goal for any other value. |
| ProteinGoal.AgeBoostBoundary | src/contexts/AuthContext.jsx:42-44 | Age 50 is boosted by a factor of 1.2 over age 49, which is not boosted. |
| ProteinGoal.WorkedExample | src/contexts/AuthContext.jsx:33-46 | 70 kg, 175 cm, age 25, "Male": the BMR is 1673.75 and the goal is 162. |
| Profiles.LoadRecomputesIff | src/contexts/AuthContext.jsx:61-77 | When the profile is complete and its cached age differs from the current age (null always differs), a load writes the calculator's goal and the current age and changes no other field. Otherwise it leaves the profile unchanged. |
| Profiles.RecomputeKeepsInputs | src/contexts/AuthContext.jsx:67-75 | A recomputation writes only goal and cached age. Completeness, dob, height, weight and gender stay as they were. |
| Profiles.LoadMakesGoalCurrent | src/contexts/AuthContext.jsx:65-71 | After a load, a complete profile's cached age is the current age. |
| Profiles.LoadKeepsCurrent | src/contexts/AuthContext.jsx:65 | A profile whose cached age is current is left alone by a load. |
| Profiles.LoadIdempotent | src/contexts/AuthContext.jsx:61-77 | Loading twice at the same age is loading once. |
| Profiles.BaseProfile | src/contexts/AuthContext.jsx:82-92 | The first-login profile is incomplete, has goal 120, gender "Male", and a null cached age and username. |
| Profiles.BaseProfileConsistent | src/contexts/AuthContext.jsx:82-92 | The base goal is what the calculator gives without inputs, and loading the base profile changes nothing. |
| Profiles.UpdateRecomputes | src/contexts/AuthContext.jsx:142-162 | The updates always land. Other stored fields keep their values. When the merged profile is complete, goal and cached age are rewritten, whichever fields were edited. Otherwise only the updates are written. |
| Profiles.UpdateThenLoad | src/contexts/AuthContext.jsx:155-158 | After an update, a load at the same age changes nothing. |
| Profiles.GenderDefaultSameGoal | src/contexts/AuthContext.jsx:147-153 | Defaulting a missing gender to "Male" on update gives the same goal as the load, which passes it through. |
| Profiles.AuthContext.AuthStateChanged | src/contexts/AuthContext.jsx:50-101 | On sign-in, the stored profile is loaded with the recompute rule, or the base profile is created. The held profile is the stored one. Sign-out clears user and profile. Loading ends. |
| Profiles.AuthContext.UpdateProfile | src/contexts/AuthContext.jsx:138-163 | Nothing happens without a user. Otherwise the final updates are merged into the stored and the held profile. |
| ProteinData.EffectiveGoal | src/hooks/useProteinData.js:11 | The goal is the profile's goal when it is a non-zero number, and 120 when it is missing or 0. It is never 0. |
| ProteinData.EntriesForDayExact | src/hooks/useProteinData.js:76-81 | A day's entries are exactly those with that date, each as often as stored, with timestamps non-increasing. |
| ProteinData.TotalForDayIsSum | src/hooks/useProteinData.js:83-85 | A day's total is the sum of its entries' amounts, and 0 for a day without entries. |
| ProteinData.AddChangesOnlyItsDay | src/hooks/useProteinData.js:43-51 | A new entry adds its amount to its own day's total and leaves every other day's total unchanged. |
| ProteinData.GoalReachedIff | src/App.jsx:90 | The goal-reached test fires exactly when adding the entry moves its day's total from below the goal to at least the goal. |
| ProteinData.EditChangesOnlyAmountAndLabel | src/hooks/useProteinData.js:60-67 | Editing sets amount and label of the entry with the id. Every other entry, and each entry's id, owner, timestamp and date, is unchanged. |
| ProteinData.RemoveDropsOnlyId | src/hooks/useProteinData.js:69-73 | Removing drops every entry with the id and keeps every other entry as often as it occurred. |
| ProteinData.RemoveChangesOnlyItsDay | src/hooks/useProteinData.js:69-85 | With unique ids, removing an entry lowers its own day's total by its amount and no other day's. |
| ProteinData.EditChangesOnlyItsDay | src/hooks/useProteinData.js:60-85 | With unique ids, editing an entry moves its own day's total by the change in amount and no other day's. |
| ProteinData.ProteinLog.constructor | src/hooks/useProteinData.js:7-9 | The log starts empty for the given user. |
| ProteinData.AddToNewestFirst | src/hooks/useProteinData.js:21-25 | After an add, the newest-first entries gain exactly the new entry and stay newest first. The new entry comes first when it is strictly the newest. Only its own day's total moves, by its amount. |
| ProteinData.TotalIgnoresOrder | src/hooks/useProteinData.js:83-85 | A day's total depends only on which entries there are and how often, not on their order. |
| ProteinData.ProteinLog.AddEntry | src/hooks/useProteinData.js:43-58 | Nothing happens without a user. Otherwise it appends the user's entry with the amount, the label ("Quick Add" by default), the time and the day. Ids stay unique. The query's logs grow by that entry at the end. The visible entries become those logs sorted newest first: they gain exactly that entry and stay newest first. ProteinData.AddToNewestFirst, about that same sort, adds that the new entry heads them when it is strictly the newest and that only its own day's total moves, by the amount. |
| ProteinData.ProteinLog.EditEntry | src/hooks/useProteinData.js:60-67 | Nothing happens without a user. Otherwise the collection becomes the edit of the entry with the id. Ids stay unique. |
| ProteinData.ProteinLog.RemoveEntry | src/hooks/useProteinData.js:69-73 | Nothing happens without a user. Otherwise the entries with the id are deleted. Ids stay unique. |
| LogEntries.Filter | src/hooks/useProteinData.js:79 | A filter keeps only entries of the input that satisfy the test, and is no longer than the input. |
| LogEntries.FilterCounts | src/hooks/useProteinData.js:79 | A filter keeps every satisfying entry as often as it occurs, and no other entry. |
| LogEntries.FilterIsSubsequence | src/components/FullHistoryView.jsx:18-24 | Filtering only removes entries and keeps the relative order of the rest. |
| LogEntries.SortedPermutation | src/hooks/useProteinData.js:80 | Sorting by `b.timestamp - a.timestamp` yields the same entries, as often as before, newest first. |
| LogEntries.InsertKeepsPeers | src/hooks/useProteinData.js:80 | Inserting an entry keeps the entries of any one timestamp in their order, the inserted one first among them. |
| LogEntries.SortIsStable | src/hooks/useProteinData.js:80 | The sort is stable: the entries that share a timestamp come out in the order they went in. |
| LogEntries.SumPermutation | src/hooks/useProteinData.js:84 | Two lists with the same entries, as often, have the same sum of amounts. |
| LogEntries.FilterPermutation | src/hooks/useProteinData.js:78-79 | Filtering two lists with the same entries keeps the same entries. |
| LogEntries.NewestHeads | src/hooks/useProteinData.js:21-25 | In a newest-first list, an entry strictly newer than every other entry comes first. |
| LogEntries.SumSorted | src/hooks/useProteinData.js:84 | Sorting does not change the sum of the amounts. |
| History.PaddedCompare | src/components/FullHistoryView.jsx:18-24 | Fixed-width zero-padded numerals compare as strings exactly as their numbers compare. |
| History.FullDateCompare | src/components/FullHistoryView.jsx:18-24 | Two `yyyy-MM-dd` strings compare by year, then by month, then by day. |
| History.FullDateOrder | src/components/FullHistoryView.jsx:18-24 | Per section 5.1 of RFC 3339, `a <= b` on full-date strings holds exactly when date a is not later than date b. |
| History.RangeFilter | src/components/FullHistoryView.jsx:18-24 | The two date filters keep an entry exactly when its date is at or after a non-empty start and at or before a non-empty end. An empty bound filters nothing. |
| History.ProcessedInRange | src/components/FullHistoryView.jsx:15-35 | Without a search, the result is exactly the entries in range, each as often as stored, newest first, and a subsequence of the sorted copy. |
| History.ProcessedUnfiltered | src/components/FullHistoryView.jsx:15-35 | With no search and no bounds, the result is the whole list sorted newest first. |
| History.SubsequenceNewestFirst | src/components/FullHistoryView.jsx:16-24 | Leaving entries out of a list sorted newest first keeps it sorted. |
| History.Visible | src/components/FullHistoryView.jsx:37 | The visible entries are the prefix of the processed list of length min(visibleCount, n). |
| History.SeeMoreIff | src/components/FullHistoryView.jsx:150-174 | "See More" shows exactly when visibleCount < n, and then the remaining count is positive. With a positive count, no entries are visible (the empty state) exactly when the processed list is empty. |
| History.HistoryView.ShownEmptyIff | src/components/FullHistoryView.jsx:150 | In a view whose count is a positive multiple of 15, as every handler keeps it, the empty state shows exactly when no entry survives the search and the date range. |
| History.VisibleGrows | src/components/FullHistoryView.jsx:37 | Showing more never hides an entry: the shorter page is a prefix of the longer. |
| History.HistoryView.constructor | src/components/FullHistoryView.jsx:9-12 | No search, no bounds, 15 entries visible. |
| History.HistoryView.SetSearchQuery | src/components/FullHistoryView.jsx:47-50 | The new search is set and visibleCount is reset to 15. The bounds are unchanged. |
| History.HistoryView.SetStartDate | src/components/FullHistoryView.jsx:52-55 | The new start bound is set and visibleCount is reset to 15. The other fields are unchanged. |
| History.HistoryView.SetEndDate | src/components/FullHistoryView.jsx:52-55 | The new end bound is set and visibleCount is reset to 15. The other fields are unchanged. |
| History.HistoryView.SeeMore | src/components/FullHistoryView.jsx:160 | visibleCount grows by exactly 15 and stays a positive multiple of 15. |
| History.GroupByHeading | src/components/FullHistoryView.jsx:39-45 | One heading per distinct day of the visible entries, in order of first appearance. Each group is the visible entries with that heading, in their order. There are no groups exactly when nothing is visible. |
| History.HeadingsExact | src/components/FullHistoryView.jsx:39-45 | The heading list holds every entry's heading, no other, and none twice. |
| History.GroupsPartition | src/components/FullHistoryView.jsx:39-45 | Each visible entry lands in exactly one group, its heading's, as often as it is visible. |
| ProfileForms.ValidateFirstFailure | src/components/ProfileView.jsx:42-53 | Each of the four messages is reported exactly when its check fails and all earlier checks pass. A form passing all four gets none. |
| ProfileForms.BlankIsTrimEmpty | src/components/ProfileView.jsx:42 | The blank-username test is `trim() === ''`. |
| ProfileForms.CleanUsernameNormal | src/components/ProfileView.jsx:55 | The cleaned username is its own cleaned form, has no surrounding white space, and is empty only for a blank input. |
| ProfileForms.SpreadUnchangedIff | src/contexts/AuthContext.jsx:162 | Spreading updates over a profile leaves it as it is exactly when it already holds every updated field with that value. |
| ProfileForms.NothingChangedIff | src/components/ProfileView.jsx:57-60 | The no-change test holds exactly when writing the form's six fields would leave the stored profile as it is. |
| ProfileForms.MissingAvatarAlwaysWrites | src/components/ProfileView.jsx:57 | A stored profile without an avatar field never passes the no-change test, because `null === undefined` is false. |
| ProfileForms.SaveTakenIff | src/components/ProfileView.jsx:57-73 | An edit is refused as taken exactly when it is valid, changes something, changes the username, and another uid holds the new name. |
| ProfileForms.SaveWrites | src/components/ProfileView.jsx:62-89 | A written edit is valid, claims the name only when it differs from the stored one and is not held by another uid, and writes the cleaned username, numeric height and weight, and the avatar. |
| ProfileForms.OnboardingWritesIff | src/components/OnboardingView.jsx:21-59 | Onboarding claims and writes exactly when the form is valid and the cleaned name is free or held by the same uid. It writes numeric height and weight and no avatar field. |
| ProfileForms.WrittenFormRecomputesGoal | src/components/ProfileView.jsx:82-89 | A written form always makes the merged profile complete, so `updateProfile` recomputes goal and cached age. |
| ProfileForms.UsernameRegistry.Claim | src/components/ProfileView.jsx:76 | Claiming maps the name to the uid and changes no other name. |
| ProfileForms.ProfileEditor.constructor | src/components/ProfileView.jsx:25-35 | The form starts from the profile with defaults "", "Male" and null, not editing, with no messages. |
| ProfileForms.ProfileEditor.HandleSaveProfile | src/components/ProfileView.jsx:37-99 | A validation failure sets its message and writes nothing. No change ends editing with "Profile saved" and writes nothing. A taken name sets "Username is already taken" and writes nothing. The first two leave `isChecking` as it was. The auth provider's loading flag never changes. Otherwise it claims if needed, merges the final updates into the user's profile, ends editing and reports success. |
| ProfileForms.ProfileEditor.HandleCancel | src/components/ProfileView.jsx:101-111 | Every field is restored from the profile (defaults "", "Male", null), error and success are cleared, and editing ends. |
| ProfileForms.OnboardingForm.constructor | src/components/OnboardingView.jsx:8-15 | Empty fields, gender "Male", no error. |
| ProfileForms.OnboardingForm.HandleSubmit | src/components/OnboardingView.jsx:17-66 | A validation failure sets its message and writes nothing. A taken name sets its message and writes nothing. Otherwise it claims the cleaned name and merges the final updates into the user's profile. The auth provider's loading flag never changes. |

## Left out

- Firebase: authentication, the Firestore reads and writes, and the realtime
  snapshot listener are not modelled as I/O. The `users`, `logs` and
  `usernames` collections are maps and sequences owned by classes. Each
  awaited write happens at once and never fails, so the `catch` branches, the
  `alert` and `console` calls and the index-required message are left out.
- The auth provider's sign-in methods (Google, e-mail link) and `logout` are
  calls into Firebase. Sign-out appears only as the listener's no-account
  case.
- The old username document is never released (src/components/ProfileView.jsx:78-79).
  The model keeps that: a claim only adds or overwrites a name.
- Fuse.js fuzzy search is the parameter `search`. Only the case without a
  search query is characterised.
- date-fns and `Date`: the whole-year age is the parameter `ageOf`. Entry day
  buckets and `createdAt` are inputs. The grouping heading
  (`formatLocal(..., 'MMMM d, yyyy')`) is the parameter `keyOf`. The day buckets
  are assumed to be `yyyy-MM-dd` strings, and their order is proved for dates
  written in that form.
- ProteinGoal.CalculateProteinGoal: arithmetic is exact over `real`. IEEE-754
  doubles can round differently near a .5 boundary.
- ProfileForms.Validate: `Number()` coercion is not modelled. A number field
  is absent or a real, so `NaN` (which passes `<= 0` checks) cannot arise.
  ProfileForms.MeasureValue stores null for a blank field, which validation
  never lets through.
- VoiceParser.NumeralValue: the exact decimal value of the numeral. `parseFloat`
  returns the nearest double instead, and Infinity for a numeral of more than
  about 309 digits.
- LogEntries.Sum: amounts and totals are exact reals. The source sums doubles,
  which round at each addition (0.2 + 0.3 + 0.1 is 0.6000000000000001).
- LogEntries.SumSorted: holds for exact sums only. A sum of doubles can change
  when the entries are summed in another order.
- ProteinData.AddChangesOnlyItsDay: the day's total moves by exactly the
  amount. With doubles it moves by the amount only up to rounding.
- ProteinData.RemoveChangesOnlyItsDay: exact, as above. With doubles, up to
  rounding.
- ProteinData.EditChangesOnlyItsDay: exact, as above. With doubles, up to
  rounding.
- ProteinData.GoalReachedIff: src/App.jsx:90 adds `Number(amount)` to a total
  of doubles. The model's exact sum makes the test agree with the total after
  the add, which rounding need not.
- ProteinData.ProteinLog.AddEntry: the amount arrives as a real. The
  `Number(amount)` coercion of src/hooks/useProteinData.js:47 (a string, a
  blank giving 0, or NaN) is not modelled.
- ProteinData.ProteinLog.EditEntry: the amount arrives as a real. The
  `Number(newAmount)` coercion of src/hooks/useProteinData.js:64 is not
  modelled.
- Profiles.GoalFor: `Complete` tests truthiness, as the source does, but the
  goal reads dob only as text and height and weight only as numbers. A text
  height or weight, or a number dob, makes a profile complete, yet gives 120
  here. The source's `Number()` and `new Date()` would coerce it. The forms
  always store these fields with those types.
- Profiles.GoalFor: an unparsable dob gives a NaN age in the source, and then
  a NaN goal, as `Math.max` passes NaN through. Here the age is the integer
  parameter `ageOf`, so that case cannot arise.
- VoiceParser.ParseAsWritten: the compiled span's `.` matches one `char`, a
  Unicode scalar value, where JavaScript's `RegExp` without the `u` flag
  matches one UTF-16 code unit. For "x1😀5x 1.5" the model cuts "1😀5" and
  gives the label "Xx 1.5"; the source cannot match half an emoji there, cuts
  the final "1.5" and gives "X1😀5x".
- LogEntries.SumPermutation: holds for exact sums only. A sum of doubles can
  change when the entries are summed in another order.
- ProteinData.TotalIgnoresOrder: exact sums, as above. With doubles a day's
  total can depend on the order of its entries.
- ProteinData.AddToNewestFirst: its totals clause is exact. With doubles the
  day's total moves by the amount only up to rounding.
- ProteinData.ProteinLog.Entries: the query's `orderBy('timestamp', 'desc')`
  is the stable newest-first sort of the user's logs, taken in the order they
  were added. Firestore does not specify its order among equal timestamps, so
  only the order of entries that share a timestamp may differ.
- VoiceParser.Parse: the literal reading still removes the first occurrence
  of the span, which may lie before the matched one. VoiceParser.ParseMatched
  is the reading that cuts the matched place.
- Case mapping covers ASCII letters only. Unicode `toLowerCase`/`toUpperCase`
  are out of scope.
- The parser's regular expressions are modelled for the characters they name.
  Line terminators only matter where `.` from a compiled span meets one, and
  they are modelled there.
- The worked transcripts "I drank Chocolate Milkshake with 26g of protein",
  "Chocolate Milkshake 26 grams" and "40g chicken breast" are not evaluated end
  to end. Their parts are covered by the general lemmas VoiceParser.ParseUnit,
  VoiceParser.StripFillersKeepsUncovered and VoiceParser.LabelShape. The shorter
  transcripts in `voice_examples.dfy` are evaluated.
- ProteinData.EffectiveGoal: a truthy `goal` that is not a number would be
  passed through by the code, but gives 120 here. The stored goal is always a
  number.
- The Web Speech capture, sounds, confetti, animations, charts, calendar and
  other presentation code are left out. CalendarView and ChartsView reuse the
  day filter and sum modelled here.
- The "Profile saved"/"Profile successfully updated!" flags and `isChecking` are
  modelled. The avatar picker and edit-mode toggle are not, beyond what the
  handlers set.

## Findings

| source | as written | input that shows it | evidently intended | confidence | as-written member | corrected member |
|---|---|---|---|---|---|---|
| src/utils/voiceParser.js:48 | The matched span is compiled with `new RegExp(span, 'i')`, so the `.` of a decimal matches any character, and the first such piece is removed, which may not be the matched amount. | "1x5 1.5": the fallback amount is 1.5. The regex `1.5` first matches "1x5", so the label becomes "1.5". | Remove the matched amount itself, giving the label "1x5". | not executed | VoiceExamples.DottedAsWritten (VoiceParser.ParseAsWritten) | VoiceExamples.DottedMatched, VoiceParser.CutMatchIsSpan (VoiceParser.ParseMatched) |
| src/utils/voiceParser.js:48 | `replace` removes the first occurrence of the span, even one earlier in the transcript than the matched amount, and even read literally. | "x30 30": the "30" inside "x30" has no word boundary before it, so the fallback amount is the second "30". The first "30" is removed instead, so the label becomes "X 30". | Remove the amount where it was matched, giving the label "X30". | not executed | VoiceExamples.ShiftedAsWritten (VoiceParser.ParseAsWritten) | VoiceExamples.ShiftedMatched, VoiceParser.ParseMatchedLabel (VoiceParser.ParseMatched) |
