# Activity board client — Dafny model

A model of the pure logic of the activity-board browser client
(`src/static/app.js`): the HTML entity encoder, the avatar badge derived
from a participant's email, the projection of the activities object into
cards and drop-down options, and the decision the signup form makes once its
request has settled. Everything is written as immutable datatypes and pure
functions over strings and sequences.

Files:

- `text.dfy` (module `Text`): ASCII upper/lower-casing and `slice(0, n)`.
- `escape.dfy` (module `HtmlEscape`): `escapeHTML` as `Escape`, its decoder
  `Unescape`, safety and round-trip lemmas.
- `initials.dfy` (module `Initials`): `getInitials` as `GetInitials`, with the
  regular-expression split modelled literally, and the independent
  description `WordHeads` (first character of every word) it is proved against.
- `collation.dfy` (module `Collation`): the case-insensitive order and the
  insertion sort that orders a card's roster.
- `board.dfy` (module `Board`): cards, roster lines, drop-down options and the
  load / load-failure view.
- `signup.dfy` (module `Signup`): the signup outcome (text, kind, form reset,
  hide scheduled, list refresh).

Facts about the code that the model keeps as they are:

- the signup handler never reloads the activity list after a signup, so
  `Notice.refreshList` is always false;
- there is no unregister request and no unregister button;
- the avatar badge is interpolated without escaping (`Board.AvatarNotEscaped`);
- a local part made only of separators gives that separator as the badge,
  not an empty one (`Initials.SeparatorsOnly`).

## Model

| member | source | states |
|---|---|---|
| HtmlEscape.Escape | src/static/app.js:8-12 | the escaped text is at least as long as the input; that it holds no markup character is `EscapeSafe`, that it loses nothing is `UnescapeEscape`, that distinct texts stay distinct is `EscapeInjective` |
| HtmlEscape.EntityOf | src/static/app.js:10 | each of `& < > " '` becomes an entity that starts with `&` and ends with `;`; every other character is kept as it is |
| HtmlEscape.EscapeSafe | src/static/app.js:8-12 | the escaped text holds no `<`, `>`, `"` or `'`, and every `&` in it begins one of `&amp;`, `&lt;`, `&gt;`, `&quot;`, `&#39;` |
| HtmlEscape.UnescapeEscape | src/static/app.js:9-10 | decoding the five entities in the escaped text gives back the original text: escaping loses nothing |
| HtmlEscape.EscapeInjective | src/static/app.js:9-10 | two texts escape to the same output only when they are equal |
| HtmlEscape.EscapeFixpoint | src/static/app.js:9-10 | escaping leaves a text unchanged exactly when it contains none of the five special characters |
| HtmlEscape.EscapeConcat | src/static/app.js:9 | the global replacement works character by character: escaping a concatenation concatenates the escaped parts |
| Text.Upper | src/static/app.js:19 | upper-casing keeps the length and maps every character on its own |
| Text.Take | src/static/app.js:19 | `slice(0, n)` is exactly the first `n` characters, or the whole text when it is shorter |
| Initials.LocalPart | src/static/app.js:16 | the local part is a prefix of the email with no `@`, followed by `@` whenever it is not the whole email |
| Initials.Split | src/static/app.js:17 | splitting on runs of `.`, `-`, `_` yields at least one piece; no piece contains a separator; the first piece is empty exactly when the text is empty or opens with a separator; only the first and last pieces can be empty |
| Initials.SplitIsScan | src/static/app.js:17 | the pieces are exactly those of a left-to-right scan that grows the current piece on non-separators and closes it at the first separator of every run, the piece open at the end being the last |
| Initials.SplitScan | src/static/app.js:17 | the same scan started inside a word: its first piece is the word so far followed by the first piece of the split, the other pieces are those of the split |
| Initials.NonEmpty | src/static/app.js:17 | `filter(Boolean)` keeps every non-empty piece and only non-empty pieces |
| Initials.NonEmptyConcat | src/static/app.js:17 | filtering works piece by piece, so kept pieces stay in their input order |
| Initials.SegmentHeads | src/static/app.js:17-18 | the first characters of the kept pieces are, in order, the first characters of the words of the local part (maximal runs of non-separators) |
| Initials.RawInitials | src/static/app.js:17-18 | before upper-casing: the heads of the first two words when there are two or more, the head of the only word when there is one, and the local part's first character (nothing when it is empty) when it has no word |
| Initials.GetInitials | src/static/app.js:15-20 | the badge is at most two characters long |
| Initials.InitialsByWords | src/static/app.js:15-20 | two or more words: upper-cased heads of the first two; one word: its upper-cased head; no word: the local part's first character upper-cased; empty local part: empty badge |
| Initials.NoHeads | src/static/app.js:17-18 | a local part has no word exactly when it consists of separators only, the case in which the fallback to the local part's first character applies |
| Initials.SeparatorsOnly | src/static/app.js:16-19 | a non-empty local part of separators only gives its first character, itself a separator, as the badge |
| Initials.InitialsEmpty | src/static/app.js:16-19 | the badge is empty exactly when the local part is empty |
| Initials.LocalPartOfAddress | src/static/app.js:16 | whatever follows the first `@` does not change the local part nor the badge |
| Initials.InitialsOfLocalPart | src/static/app.js:16 | the badge of an email equals the badge of its local part alone |
| Initials.ExampleTwoWords | src/static/app.js:15-20 | local part `jane.doe` gives `JD` |
| Initials.ExampleOneWord | src/static/app.js:15-20 | local part `bob` gives `B` |
| Initials.ExampleSeparatorsOnly | src/static/app.js:15-20 | local part `...` gives `.`, not an empty badge |
| Collation.FoldedLeq | src/static/app.js:45 | the first position where two addresses differ up to letter case decides their order; an address equal up to case to the start of another comes first, and a longer one never comes before its own start (ASCII stand-in for `localeCompare`, see "Left out") |
| Collation.FoldedLeqReflexive | src/static/app.js:45 | the case-insensitive comparison puts every address level with itself |
| Collation.FoldedLeqTotal | src/static/app.js:45 | any two addresses are comparable |
| Collation.FoldedLeqTransitive | src/static/app.js:45 | the comparison is transitive, so it is a total preorder a sort can use |
| Collation.FoldedLeqIgnoresCase | src/static/app.js:45 | addresses differing only in letter case compare as equal both ways |
| Collation.ExampleCaseInsensitive | src/static/app.js:45 | `Bob@x.com` does not come before `alice@x.com` |
| Collation.Insert | src/static/app.js:45 | inserting into an ordered roster keeps it ordered and adds exactly the inserted address |
| Collation.SortParticipants | src/static/app.js:43-45 | the sorted copy is ordered case-insensitively and is a permutation of the roster |
| Collation.SortTwo | src/static/app.js:43-45 | a two-address roster whose second address comes first case-insensitively is swapped |
| Board.EntriesOf | src/static/app.js:46 | one roster line per sorted address, in order, each with that address's badge and escaped text |
| Board.EntryOf | src/static/app.js:46 | a roster line carries the badge of its own address, at most two characters, and the address escaped: no markup character, and it decodes back to the address |
| Board.ShownEntries | src/static/app.js:46 | decoding the addresses of the roster lines gives back the addresses they were built from |
| Board.RosterOf | src/static/app.js:41-63 | the "No participants yet" placeholder exactly when the roster is empty; otherwise one line per participant, and the decoded addresses are the sorted copy: ordered case-insensitively and a permutation of the roster |
| Board.CardOf | src/static/app.js:37-69 | spots left plus roster size is the capacity (no clamping); full exactly when the roster size equals capacity, so an over-full activity is negative and not full; count is the roster size; the "No participants yet" placeholder exactly when the roster is empty |
| Board.RosterShown | src/static/app.js:41-47 | a listed roster has one line per participant whose decoded addresses are a permutation of the roster in case-insensitive order, each line with its own address's badge |
| Board.CardTextEscaped | src/static/app.js:46-68 | name, description, schedule and every listed address are escaped (no markup character) and decode back to the server's text; the k-th listed address decodes to the k-th address of the sorted roster |
| Board.AvatarNotEscaped | src/static/app.js:46 | the badge is not escaped: local part `<` puts a raw `<` into the roster line |
| Board.CardsOf | src/static/app.js:33-73 | one card per activity, in the order of the activities object |
| Board.NameOptions | src/static/app.js:76-79 | one option per activity, in order, value and text both the name |
| Board.OptionsOf | src/static/app.js:30-79 | the drop-down is one placeholder with empty value followed by one option per activity in order, value and text equal to its name |
| Board.Load | src/static/app.js:23-84 | a failed load shows the fixed failure text and keeps the previous drop-down; a successful one shows exactly the cards of the fetched activities and the drop-down built from them, and therefore one card per option after the placeholder |
| Board.CardsMatchOptions | src/static/app.js:33-79 | the k-th card's decoded title is the value and the text of the option after the placeholder at the same position |
| Signup.TextOf | src/static/app.js:105 | setting the message text to a missing `message` shows empty text; a present one is shown as it is |
| Signup.Truthy | src/static/app.js:109 | the logical-or fallback to "An error occurred" applies exactly when `detail` would show as empty text: missing or empty |
| Signup.Decide | src/static/app.js:102-124 | success kind exactly for an ok reply, form reset exactly on success, hide scheduled exactly when no exception was thrown, list never refreshed, error texts never empty; texts: `message`, else `detail` or "An error occurred" when it is missing or empty, else "Failed to sign up. Please try again." |

## Left out

- DOM access (`getElementById`, `innerHTML`, `createElement`, `classList`, `appendChild`): cards and options are abstract records, not HTML.
- `fetch`, `async`/`await`, `response.json()`: their results are inputs (`Board.Fetch`, `Signup.Attempt`); the request URL built with `encodeURIComponent` (lines 95-100) is not modelled.
- The five-second `setTimeout` and the race between overlapping messages: only whether a hide is scheduled is recorded.
- `console.error` logging.
- An exception thrown while building the cards (for example a missing `participants` field) cannot arise in the typed model; in the code it would leave the options added so far in the drop-down.
- `Object.entries` lists integer-like keys first in ascending order; the model takes the activities already in iteration order.
- Activity fields are typed (`string` name, description, schedule and addresses, `int` capacity): the `String(...)` coercion that `escapeHTML` (line 9) and `getInitials` (line 16) apply is not modelled, so a missing or non-string description or schedule, which the page would show as `undefined`, `null` or `42`, and a missing `max_participants`, which would show `NaN spots left`, cannot arise.
- A non-string `detail` (for example a list of validation errors) would be shown through `String(...)`; the model takes `detail` as an optional string.
- Collation.FoldedLeq: compares ASCII-lower-cased code points, not the locale-aware `localeCompare` with `sensitivity: "base"`. Beyond ignoring accents and following the locale's alphabet, root collation puts punctuation (`@` included) before digits and orders `_` before `-` before `.`, whereas code points put digits before `@` and `.` before `_`: the model sorts `john2@x.com` before `john@x.com`, while the collation-rule order puts `john@x.com` first.
- Collation.SortParticipants: the relative order of addresses that compare equal is not stated (the engine's sort is stable; the model's insertion sort happens to be too).
- Initials.GetInitials: upper-cases ASCII letters only and indexes Unicode scalar values, not UTF-16 code units; full `toUpperCase` can lengthen text, which is what `slice(0, 2)` would then cut.
