# Poll tally, vote eligibility and poll-creation form

A verified model of the two pieces of stateful logic in a single-page poll
application whose persistence, authentication and change feed all live in a
hosted backend:

- the **poll list** (`src/components/PollList.js`): after each fetch it scans
  every option of every poll for a vote of the signed-in user. The scan yields
  two maps: the polls the user has voted in, and the option chosen in each.
  The `handleVote` guard and its map updates use them. Once the user has voted
  in a poll, the list renders each option's vote count and its percentage of
  the poll's total. When some vote exists, it also highlights the winning
  option. A tie at the maximum means no winner. The "selected", "voted-other"
  and "winning" display flags are built from these values;
- the **poll-creation form** (`src/components/PollForm.js`): the question,
  the list of option texts with their change/add/remove handlers, and the
  submission. Submission rejects a blank question and fewer than two
  non-blank options before any write. It then inserts the poll and one row
  per valid option and resets the form on success.

Backend calls are not modelled as code. Each handler takes the backend's
answer as a parameter (a `Result`: a value or an error message) and returns
the writes it sends, so "nothing is written" can be stated. Every handler
is one atomic step.

Files and modules:

| file | module | contents |
|---|---|---|
| `wrappers.dfy` | `Wrappers` | `Option` (JavaScript `null`/`undefined`) and `Result` |
| `poll_data.dfy` | `PollData` | `Vote`, `PollOption`, `Poll` as the list query returns them |
| `js_text.dfy` | `JsText` | `String.prototype.trim` over ECMAScript whitespace; `IsBlank` |
| `tally.dfy` | `Tally` | totals, percentages, the winner (method `Winner` and its reference `WinnerOf`), display predicates |
| `eligibility.dfy` | `Eligibility` | the nested-loop vote scan `ScanVotes` and its reference `LastChoice` |
| `poll_list.dfy` | `PollList` | class `PollListState`: `Fetch` and `Vote` (`fetchPolls`, `handleVote`) |
| `poll_form.dfy` | `PollForm` | `ValidOptions`, `OptionRows`, class `PollFormState` with its handlers |

## Model

| member | source | states |
|---|---|---|
| `JsText.Trim` | src/components/PollForm.js:29-35 | `trim()` returns an infix of its input. The dropped prefix and suffix are all whitespace, and the result neither starts nor ends with whitespace |
| `JsText.TrimEmptyIffBlank` | src/components/PollForm.js:29-33 | the trimmed text is empty exactly when every character is whitespace (both directions) |
| `Tally.CountWithinTotal` | src/components/PollList.js:157 | no option's vote count exceeds the poll's total |
| `Tally.TotalZeroIffNoVotes` | src/components/PollList.js:157 | the total is 0 exactly when every option has zero votes, including a poll with no options |
| `Tally.PercentageBounds` | src/components/PollList.js:157-158 | every option's percentage lies in [0, 100], and it is 0 when the total is 0 (no division by zero) |
| `Tally.SumOfPercentagesIsShareOfTotal` | src/components/PollList.js:157-158 | summing the per-option percentages against a positive total gives 100 times the votes' share of that total |
| `Tally.PercentagesSumTo100` | src/components/PollList.js:157-158 | when at least one vote exists, the percentages of all options add up to exactly 100 |
| `PollData.VoteCount` | src/components/PollList.js:131-158 | `option.votes.length`, the count over which the winner pass, the tie filter, the total and the percentage are all stated |
| `Tally.TotalVotes` | src/components/PollList.js:157 | the `reduce` total, folded from the left; `TotalZeroIffNoVotes`, `CountWithinTotal` and `SumOfPercentagesIsShareOfTotal` state what it means |
| `Tally.Percentage` | src/components/PollList.js:158 | the guarded share in percent; `PercentageBounds`, `PercentagesSumTo100` and `TwoWayTie` state its range, its sum and the 50/50 case |
| `Tally.Tied` | src/components/PollList.js:137 | the tie `filter`; `TiedHoldsOne`, `TiedHoldsBoth`, `TiedOnlyOne` and `TiedNone` bound its length by the number of options at the count, which is what the `winners.length > 1` test at line 138 relies on |
| `Tally.TiedHoldsOne` | src/components/PollList.js:137 | an option at count m makes the filter keep at least one |
| `Tally.TiedNone` | src/components/PollList.js:137 | with no option at count m the filter keeps nothing |
| `Tally.IsSelected` | src/components/PollList.js:160 | the "selected" flag; `SelectionMarks` and `PollList.SelectionFollowsScan` state when it holds |
| `Tally.IsVotedOther` | src/components/PollList.js:161 | the "voted-other" flag; `SelectionMarks` and `PollList.SelectionFollowsScan` state when it holds |
| `Tally.IsWinningOption` | src/components/PollList.js:162 | the "winning-option" flag; `WinningHighlight`, `WinnerHasVotes` and `LoneOptionWithoutVotes` state when it holds |
| `Tally.WinnerOfStrictMax` | src/components/PollList.js:127-141 | the winner's reference definition names the option that strictly beats every other, and that option is unique |
| `Tally.TiedHoldsBoth` | src/components/PollList.js:137-138 | two distinct options at the maximum make the tie filter keep at least two, so a tie yields no winner |
| `Tally.TiedOnlyOne` | src/components/PollList.js:137-138 | when only one option has the maximum count, the tie filter keeps at most one |
| `Tally.Winner` | src/components/PollList.js:127-141 | the first pass (strict `>`) plus the tie filter gives no winner for a poll with no options. It gives a winner exactly when one option strictly beats all others, and then that option's id. Any tie at the maximum, all-zero included, gives none. The result equals `WinnerOf` |
| `Tally.TwoWayTie` | src/components/PollList.js:127-158 | two options with equal counts give no winner, and each holds 50% once a vote exists |
| `Tally.FiveToTwo` | src/components/PollList.js:127-158 | five votes against two: the first option wins, and the percentages are 500/7 and 200/7 (displayed as 71.4 and 28.6) |
| `Tally.SelectionMarks` | src/components/PollList.js:160-161 | once the user has voted, each option is exactly one of "selected" and "voted-other". Before that it is neither |
| `Tally.WinningHighlight` | src/components/PollList.js:162 | an option is highlighted as winning exactly when the user has voted, the total is positive, and an option with its id strictly beats all others |
| `Tally.WinnerHasVotes` | src/components/PollList.js:127-162 | with two or more options a winner implies a positive total, so the `totalVotes > 0` guard only matters for a lone option |
| `Tally.LoneOptionWithoutVotes` | src/components/PollList.js:127-162 | a poll whose only option has no votes has that option as winner but never highlights it |
| `Eligibility.HoldsVoteOf` | src/components/PollList.js:40 | the `some` test on an option's votes; `LastChoiceInIffVoted` and `MarkedIffVoted` state that the scan marks exactly the polls where it holds for some option |
| `Eligibility.LastChoiceInIffVoted` | src/components/PollList.js:39-43 | a choice is recorded for a poll exactly when one of its options holds a vote of the user |
| `Eligibility.LastChoiceInIsLast` | src/components/PollList.js:39-43 | the recorded choice is an option holding the user's vote with no later option holding one, because later iterations overwrite. Conversely, such an option is the recorded choice |
| `Eligibility.MarkedIffVoted` | src/components/PollList.js:38-45 | a poll id is marked voted exactly when some poll with that id has an option holding a vote whose user id is the user's |
| `Eligibility.RecordedChoiceIsLast` | src/components/PollList.js:38-45 | the choice recorded for a poll id is the last choice in the last poll with that id in which the user voted (both directions) |
| `Eligibility.ScanVotes` | src/components/PollList.js:36-47 | the nested loops starting from empty maps mark exactly the poll ids where the user voted, always with `true`. The choice map has the same keys, and each entry is the `LastChoice` reference value |
| `PollList.HasVoted` | src/components/PollList.js:123 | `votedPolls[poll.id]` with a missing key read as falsy; `ButtonDisabled` and the contract of `PollListState.Vote` use it as the guard of line 73 |
| `PollList.SelectedOption` | src/components/PollList.js:124 | `userVotes[poll.id]`, absent when no choice is recorded; `SelectionFollowsScan` ties it to the display flags |
| `PollList.SelectionFollowsScan` | src/components/PollList.js:36-161 | with the maps as the scan builds them (lines 36-47), an option is "selected" (line 160) exactly when it is the choice recorded for its poll, and "voted-other" (line 161) exactly when the user voted in that poll for a different option |
| `PollList.ButtonDisabled` | src/components/PollList.js:168 | the vote buttons' `disabled` test, with `hasUserVoted` read at line 123; the contract of `PollListState.Vote` states that a vote is written exactly when the buttons are enabled |
| `PollList.PollListState.constructor` | src/components/PollList.js:5-8 | no polls, empty maps, loading |
| `PollList.PollListState.Fetch` | src/components/PollList.js:10-51 | loading ends false. A failed query keeps polls and maps unchanged. A successful one replaces the polls. Without a user both maps are left untouched. With a user they are rebuilt from the fresh snapshot alone: a poll is marked exactly when it holds the user's vote, and the choice is the last holding option. `Valid` is preserved |
| `PollList.PollListState.Vote` | src/components/PollList.js:72-88 | a vote row is written exactly when there is a user and the poll is not marked, which is exactly when the poll's vote buttons are enabled (`ButtonDisabled`, line 168). The row carries the option and the user's id. Otherwise nothing changes. A successful insert sets only this poll's two entries. A failed insert changes neither map. Loading ends false after a write. A poll whose fetched snapshot holds the user's vote is always rejected |
| `PollList.SecondVoteRejected` | src/components/PollList.js:72-88 | after the list has loaded (so the vote buttons are shown), a second vote by the same user on the same poll writes nothing, whether the first was written or refused |
| `PollForm.ValidOptions` | src/components/PollForm.js:35 | the valid-option `filter`; `ValidOptionsCount`, `ValidOptionsAreNonBlank` and `ValidOptionsKeepOrder` pin it down as exactly the non-blank options, untrimmed, in order |
| `PollForm.ValidOptionsCount` | src/components/PollForm.js:35 | the valid options hold every non-blank option as often as it occurs, untrimmed, and no blank one |
| `PollForm.ValidOptionsAreNonBlank` | src/components/PollForm.js:35 | an option is valid exactly when it is one of the options and is not blank |
| `PollForm.ValidOptionsKeepOrder` | src/components/PollForm.js:35 | the valid options are a subsequence of the options, so their order is kept |
| `PollForm.OptionRows` | src/components/PollForm.js:51-54 | the payload has exactly as many rows as there are valid options |
| `PollForm.OptionRowsRoundTrip` | src/components/PollForm.js:51-54 | the rows give back exactly the texts they were built from, in order, and each carries the new poll's id |
| `PollForm.PollFormState.constructor` | src/components/PollForm.js:5-7 | empty question, exactly two empty options, not loading |
| `PollForm.PollFormState.ChangeQuestion` | src/components/PollForm.js:82 | the question becomes the typed value. Options and loading are unchanged |
| `PollForm.PollFormState.ChangeOption` | src/components/PollForm.js:9-13 | the text at the index becomes the value. The length, every other option and the question are unchanged |
| `PollForm.PollFormState.AddOption` | src/components/PollForm.js:15-17 | one empty option is appended. Existing options keep their positions and text |
| `PollForm.PollFormState.CanRemove` | src/components/PollForm.js:99 | the remove button is rendered only above two options; as a precondition of `RemoveOption` it keeps at least two options in the form |
| `PollForm.PollFormState.CanSubmit` | src/components/PollForm.js:84-97 | the browser fires the submit handler only when the `required` inputs (the question at line 84, the first two options at line 97) are not empty; whitespace-only text passes, so the blank-question rejection of `Submit` stays reachable |
| `PollForm.PollFormState.RemoveOption` | src/components/PollForm.js:19-23 | offered only above two options (line 99). It removes exactly the element at the index, shortens the list by one, and keeps the rest in order. At least two options always remain |
| `PollForm.PollFormState.Submit` | src/components/PollForm.js:25-70 | called once the browser's `required` check (`CanSubmit`) passes. It is rejected with no write exactly when the question is blank. Also rejected with no write when fewer than two options are non-blank. Otherwise the poll row (question, user) is written first. If it is accepted, one row per valid option follows, in order, with its untrimmed text. Only full success resets the form to an empty question and two empty options. Every other path keeps the form. Loading is false on every exit |

## Left out

- The backend query, its `my-polls` filter and its ordering are not modelled (`src/components/PollList.js:13-29`). The fetched list is a parameter of `Fetch`.
- Realtime subscriptions and their cleanup are not modelled (`src/components/PollList.js:53-70`). They only trigger another `Fetch`.
- Poll deletion and the edit stub are not modelled (`src/components/PollList.js:90-112`). They are a backend call behind a confirmation dialog, and an alert.
- `toFixed(1)` and the CSS width string are display formatting over floating point. They are not modelled.
- JSX rendering, `alert`, `window.confirm`, `console.error` on a failed fetch (`src/components/PollList.js:32`) and `e.preventDefault()` are not modelled. They are UI effects only.
- `src/App.js`, `src/components/Auth.js` and `src/components/ProfileEditor.js` are not part of this model. `src/App.js` holds the session and profile wiring (`src/App.js:16-51`) and the modal toggles. `src/components/ProfileEditor.js` makes one SDK update (`src/components/ProfileEditor.js:25-28`). `src/components/Auth.js` signs in (`src/components/Auth.js:14`), signs up (`src/components/Auth.js:29`) and, when sign-up returns a user, inserts a profile (`src/components/Auth.js:37-40`). Both check that the username is not blank (`src/components/Auth.js:23`, `src/components/ProfileEditor.js:18`), the same check that `JsText.TrimEmptyIffBlank` covers.
- Asynchronous interleavings are not modelled. This covers a re-fetch racing a pending vote, and the missing server-side one-vote-per-poll constraint. Each handler is one atomic step.
- Tally.PercentagesSumTo100: percentages are exact reals. The source computes them in IEEE doubles, so there the sum is 100 only up to rounding.
- PollForm.PollFormState.ChangeOption: options are modelled as values. The source also writes the new text into the option object shared with the previous array. That array is discarded at once and never read again, so the aliasing is not modelled.
- PollForm.PollFormState.Submit: the poll insert's answer is modelled as the new poll's id or an error. The source reads `pollData[0].id`. An empty answer would throw inside the `try` and end like any other failure, and that case is not modelled separately.
- `PollForm.PollFormState.Submit` assumes the signed-in user. The form is only rendered inside a session (`src/App.js:86`), so the `user.id` access never throws.
