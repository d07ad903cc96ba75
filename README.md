# QR generator core, modelled in Dafny

The QR generator turns free-form text into the payload of a QR code. It then
keeps a short history of what was generated, shows toast notifications, and
answers a few Ctrl shortcuts. This project models the logic behind those
features and proves properties of it.

- **Input classifier** (`DataTypeUtils`, with `Strings`, `Regex` and `Seqs`).
  `formatDataType` trims its input and tries six regular expressions in a
  fixed order: phone, e-mail, SMS, WiFi, coordinates, URL. The first one that
  matches decides the kind of data. The result is a scheme-prefixed payload:
  `tel:`, `mailto:`, `sms:`, `WIFI:T:WPA;...;;`, `geo:` or an `http://` or `https://` URL.
  Anything else is plain text.
  - The six regular expressions are transcribed as data: char classes,
    bounded repetitions, optional capturing groups and alternatives.
  - A backtracking matcher runs them. It is greedy and tries alternatives in
    order, as ECMAScript does, so the captures it returns are the ones
    `String.prototype.match` returns.
  - The whitespace set of `\s` and `trim` is the exact ECMAScript set.
- **History** (`History`). The `useHistory` hook keeps a list of generated
  codes, newest first. It deduplicates by payload, keeps at most 20 entries,
  and supports removal, favourites and two views.
  - The list lives in a class whose methods replace it, as the hook's setter
    does.
  - Each new list is a pure function of the old one. The lemmas are stated
    about those functions.
- **Toasts** (`Toasts`). The `useToast` hook has a notification queue with
  append, remove-by-id and clear, plus typed shorthands.
- **Keyboard shortcuts** (`KeyboardShortcuts`). The Ctrl-key rule decides
  whether the browser default is prevented and which callback runs.
- **History panel** (`HistoryPanel`). `formatDate` buckets an entry's age into
  minutes, hours or days. The panel also maps each type to an icon and picks
  the list the open tab shows.

The module layout follows the source files:

| file | module |
|---|---|
| data_type_utils.dfy | `DataTypeUtils` |
| history.dfy | `History` |
| toast.dfy | `Toasts` |
| keyboard_shortcuts.dfy | `KeyboardShortcuts` |
| history_panel.dfy | `HistoryPanel` |

Three shared modules support them:

| file | module |
|---|---|
| strings.dfy | `Strings` |
| regex.dfy | `Regex` |
| seqs.dfy | `Seqs` and `Options` |

The clock, the random source, local storage and the DOM are not modelled:

- ids and timestamps are method parameters;
- the current time is a parameter of `FormatDate`;
- which element has the focus is two booleans of the key event.

Where the code and the comments and sample data written beside it disagree,
the model follows the code:

- **SMS payload.** The comment above the SMS pattern
  (src/utils/dataTypeUtils.ts:22) describes an `SMS:` prefix followed by a
  number, and the sample list holds `SMS:010-1234-5678`
  (src/utils/dataTypeUtils.ts:165). The SMS branch normalises capture group 2,
  which is only the optional `+82` prefix, so the payload for that sample is
  `sms:` (see Findings).
- **The `010` guess.** The guess at src/utils/dataTypeUtils.ts:44-47 tests the
  length 8 and the first character only, whatever the other characters are.
- **Colons.** The WiFi and SMS patterns accept an ASCII or a fullwidth colon
  (`：`) after the keyword. The WiFi network name `[^:]+` excludes only the
  ASCII colon, so it may hold fullwidth colons, and a fullwidth colon may also
  end it: `WiFi:net：x` gives the network `net` and the password `x`, and
  `WiFi:My：Net：abc` gives the network `My：Net` because the greedy network run
  backtracks to the last separator that lets the password match.

## Model

| member | source | states |
|---|---|---|
| DataTypeUtils.FormatDataType | src/utils/dataTypeUtils.ts:71-157 | every result carries the exact untrimmed input as `original`; a text result's payload is the untrimmed input; blank or all-whitespace input is text with the description "텍스트" |
| DataTypeUtils.FormatKindIsFirstMatch | src/utils/dataTypeUtils.ts:74-156 | the kind of the result is the first of phone, e-mail, SMS, WiFi, geo, URL whose pattern accepts the trimmed input, and text for blank input or when none does |
| DataTypeUtils.FirstMatchIsEarliest | src/utils/dataTypeUtils.ts:84-156 | the chosen kind sits at some position of the order, its pattern accepts, and every kind before that position rejects; text is chosen exactly when every pattern rejects |
| DataTypeUtils.StripSeparators | src/utils/dataTypeUtils.ts:35 | deleting whitespace and hyphens leaves none, keeps every digit, and changes nothing in a string that has none |
| DataTypeUtils.StripSeparatorsKeeps | src/utils/dataTypeUtils.ts:35 | stripping keeps every character other than whitespace and hyphens, in order and as often as it occurs, and drops every whitespace character and hyphen |
| DataTypeUtils.DropCountryCode | src/utils/dataTypeUtils.ts:37-42 | the country-code rewrite either produces a string starting with `0` or leaves the string unchanged, and adds no separator |
| DataTypeUtils.DropCountryCodeInverse | src/utils/dataTypeUtils.ts:37-42 | a string changes exactly when it starts with `+82`, or with `82` and is longer than 10; then the result starts with the `0` that replaced that prefix and the rest of the string is kept |
| DataTypeUtils.GuessMobilePrefix | src/utils/dataTypeUtils.ts:44-47 | an 8-character string not starting with `0` gets `010` in front, and any other string is unchanged |
| DataTypeUtils.NormalizePhoneNumber | src/utils/dataTypeUtils.ts:33-50 | a normalised number contains no whitespace and no hyphen |
| DataTypeUtils.NormalizeGivesNormalised | src/utils/dataTypeUtils.ts:33-50 | a normalised number offers none of the three rewrites another chance: no separator, no `+82` start, no `82` start on more than 10 characters, no 8-character string without a leading `0` |
| DataTypeUtils.NormalizePhoneIdempotent | src/utils/dataTypeUtils.ts:33-50 | normalising a normalised number changes nothing |
| DataTypeUtils.PhoneHasNineDigits | src/utils/dataTypeUtils.ts:14 | every string the phone pattern accepts holds at least nine digits |
| DataTypeUtils.GeoTestIff | src/utils/dataTypeUtils.ts:29 | the matcher accepts a string with the coordinate pattern exactly when the string is a word of the pattern's pieces |
| DataTypeUtils.EmailTestIff | src/utils/dataTypeUtils.ts:17 | the matcher accepts a string with the e-mail pattern exactly when the string is a word of the pattern's pieces |
| DataTypeUtils.NormalizeLongNumber | src/utils/dataTypeUtils.ts:44-47 | for a string with at least nine digits the `010` guess never fires, and at least eight digits remain after the country-code rewrite |
| DataTypeUtils.PhonePayload | src/utils/dataTypeUtils.ts:84-91 | a phone result's payload is `tel:` and the trimmed input with separators deleted and the country code rewritten; the `010` guess is unreachable here and the number keeps at least eight digits |
| DataTypeUtils.EmailShape | src/utils/dataTypeUtils.ts:17 | an accepted e-mail address contains exactly one `@` |
| DataTypeUtils.EmailPayload | src/utils/dataTypeUtils.ts:95-101 | an e-mail result's payload is `mailto:` followed by the trimmed input, unchanged |
| DataTypeUtils.SmsCapture | src/utils/dataTypeUtils.ts:23 | in an SMS match, group 2 is either absent (empty) or only a `+82`/`82` prefix with its optional separator, while the input holds at least nine digits |
| DataTypeUtils.CountryCodeNormalised | src/utils/dataTypeUtils.ts:33-50 | normalising an empty group or a country-code prefix gives the empty string, `0` or `82` |
| DataTypeUtils.SmsPayloadDropsNumber | src/utils/dataTypeUtils.ts:105-113 | as written, an SMS result's payload is `sms:`, `sms:0` or `sms:82` although the input holds a number of at least nine digits |
| DataTypeUtils.IntendedSmsKeepsNumber | src/utils/dataTypeUtils.ts:23 | with group 2 around the whole number, the input splits into keyword, colon and spaces, and a number with or without country code; the group is exactly that number, it holds at least nine digits, and the payload is `sms:` and that number with separators deleted and the country code rewritten |
| DataTypeUtils.WifiCaptures | src/utils/dataTypeUtils.ts:26 | a WiFi match splits the whole input into keyword, colon and spaces, network, colon and spaces, and password, and group 2 and group 3 are the network and the password of that split; the network is non-empty with no ASCII colon, the password non-empty with no line terminator |
| DataTypeUtils.WifiPayload | src/utils/dataTypeUtils.ts:117-126 | for such a split of the trimmed input, the payload is `WIFI:T:WPA;S:` + trimmed network + `;P:` + trimmed password + `;;`, with nothing escaped, the network holding no ASCII colon and the password non-empty |
| DataTypeUtils.Split | src/utils/dataTypeUtils.ts:130 | splitting on a character gives one more part than there are separators, no part holds the separator, and joining the parts gives back the string |
| DataTypeUtils.GeoHasOneComma | src/utils/dataTypeUtils.ts:29 | every accepted coordinate pair holds exactly one comma |
| DataTypeUtils.GeoPayload | src/utils/dataTypeUtils.ts:129-137 | a geo payload is `geo:` + the trimmed text before the only comma + `,` + the trimmed text after it, digits kept as written |
| DataTypeUtils.NormalizeUrl | src/utils/dataTypeUtils.ts:53-68 | the result always starts with `http://` or `https://`; a trimmed URL that has one is returned as is, any other gets exactly `https://` in front |
| DataTypeUtils.NormalizeUrlIdempotent | src/utils/dataTypeUtils.ts:53-68 | normalising a normalised URL changes nothing |
| DataTypeUtils.UrlPayload | src/utils/dataTypeUtils.ts:140-148 | a URL result's payload starts with a scheme, is the trimmed input when that has one, and is `https://` + the trimmed input otherwise |
| Strings.Trim | src/utils/dataTypeUtils.ts:72 | `trim` returns a contiguous slice of the input with only whitespace cut off before and after it, and neither starts nor ends with whitespace |
| Strings.TrimEmptyIff | src/utils/dataTypeUtils.ts:74 | the trimmed input is empty exactly when every character is whitespace |
| Regex.ExecParses | src/utils/dataTypeUtils.ts:12-30 | a match found by the matcher is a parse of one branch of the pattern whose captured groups are where the match put them |
| Regex.ExecSpans | src/utils/dataTypeUtils.ts:12-30 | a match splits the whole input into consecutive spans, one per term of one branch |
| Regex.ExecComplete | src/utils/dataTypeUtils.ts:12-30 | the matcher finds a match whenever some branch of the pattern can parse the whole input: backtracking misses no match |
| History.Stamp | src/hooks/useHistory.ts:28-32 | the new item carries the given id, the given timestamp and every supplied field unchanged |
| History.Added | src/hooks/useHistory.ts:34-36 | after an addition the new item is first, no other entry has its payload, there are 1 to 20 entries, and the older survivors keep their relative order |
| History.AddedKeepsDistinct | src/hooks/useHistory.ts:35-36 | adding keeps the payloads of the list pairwise distinct |
| History.AddedKeepsOthers | src/hooks/useHistory.ts:35-36 | in a list with room, every older entry with another payload survives an addition |
| History.AddedKeepsNewest | src/hooks/useHistory.ts:35-36 | an older entry with another payload survives an addition exactly when fewer than 19 entries with other payloads come before it, and then it sits right after the new item and those entries |
| History.AddFresh | src/hooks/useHistory.ts:35-36 | adding a new payload to a list of fewer than 20 entries puts it in front of the unchanged list |
| History.Removed | src/hooks/useHistory.ts:44-50 | removal keeps, in their order, every copy of every entry with another id, and no entry with the id |
| History.RemoveUnknown | src/hooks/useHistory.ts:44-50 | removing an id no entry carries changes nothing |
| History.Toggled | src/hooks/useHistory.ts:52-60 | toggling keeps length, order and every field except the favourite flag, which flips exactly on the entries with the id |
| History.ToggledKeepsDistinct | src/hooks/useHistory.ts:52-60 | toggling keeps the payloads pairwise distinct |
| History.ToggleTwice | src/hooks/useHistory.ts:52-60 | toggling the same id twice restores the list |
| History.ToggleUnknown | src/hooks/useHistory.ts:52-60 | toggling an id no entry carries changes nothing |
| History.Lookup | src/hooks/useHistory.ts:66-68 | the lookup returns the first entry with the id, and nothing exactly when no entry has it |
| History.Favorites | src/hooks/useHistory.ts:77 | the favourites view keeps, in list order, every copy of every favourite entry and no other entry |
| History.Recent | src/hooks/useHistory.ts:78 | the recent view is the first min(10, n) entries |
| History.HistoryStore.AddToHistory | src/hooks/useHistory.ts:27-42 | the new list is the addition of the stamped item, the returned id is that item's, and the invariant (at most 20 entries, distinct payloads) is kept |
| History.HistoryStore.RemoveFromHistory | src/hooks/useHistory.ts:44-50 | the new list is the removal of the id, and the invariant is kept |
| History.HistoryStore.ToggleFavorite | src/hooks/useHistory.ts:52-60 | the new list is the toggle of the id, and the invariant is kept |
| History.HistoryStore.ClearHistory | src/hooks/useHistory.ts:62-64 | the list is empty afterwards |
| History.HistoryStore.GetHistoryItem | src/hooks/useHistory.ts:66-68 | the found item is the first entry with the id; nothing is found exactly when no entry has the id |
| History.HistoryStore.FavoritesView | src/hooks/useHistory.ts:77 | the view keeps, in history order, every copy of every favourite entry and no other entry |
| History.HistoryStore.RecentView | src/hooks/useHistory.ts:78 | the view is the first min(10, n) entries of the history |
| Toasts.NewToast | src/hooks/useToast.ts:15-17 | a new toast has the given id and message; an absent type means `info` and an absent duration means 3000 ms |
| Toasts.Shown | src/hooks/useToast.ts:19 | showing appends exactly one toast at the end and leaves the earlier ones unchanged and in order |
| Toasts.Dismissed | src/hooks/useToast.ts:29-31 | removal keeps, in their order, every copy of every toast with another id, and no toast with the id |
| Toasts.DismissUnknown | src/hooks/useToast.ts:29-31 | removing an id no toast carries changes nothing |
| Toasts.ShowThenDismiss | src/hooks/useToast.ts:19-24 | dismissing a toast whose id was fresh when it was shown gives back the queue from before |
| Toasts.DismissOtherAfterShow | src/hooks/useToast.ts:19-31 | removing one id commutes with showing a toast that has another id |
| Toasts.ToastQueue.ShowToast | src/hooks/useToast.ts:15-27 | the queue gains the new toast at the end, and the returned id is that toast's id |
| Toasts.ToastQueue.Notify | src/hooks/useToast.ts:43-46 | each shorthand appends a toast of its own type with the given duration or 3000 ms, and returns its id |
| Toasts.ToastQueue.RemoveToast | src/hooks/useToast.ts:29-31 | the new queue is the removal of the id |
| Toasts.ToastQueue.ClearAllToasts | src/hooks/useToast.ts:33-35 | the queue is empty afterwards |
| KeyboardShortcuts.HandleKeyDown | src/hooks/useKeyboardShortcuts.ts:17-56 | without Ctrl nothing happens. With Ctrl: Enter always prevents the default and refreshes; S and D prevent it and download only when no INPUT or TEXTAREA is focused; C needs that and a target other than the focused element; other keys do nothing. Each key runs only its own callback, and only when that callback was passed in; when it was not, no callback runs but the default is still prevented |
| KeyboardShortcuts.CaseInsensitive | src/hooks/useKeyboardShortcuts.ts:25 | an event behaves exactly as the same event with its key lower-cased |
| HistoryPanel.FormatDate | src/components/HistoryPanel.tsx:24-37 | under a minute of age, including a negative age from a future timestamp, is "just now". Otherwise the first unit whose count fits is used: minutes 1-59, hours 1-23, days 1-6, each the floor of the age in that unit. A week or more falls to the absolute date |
| HistoryPanel.AgeTextCount | src/components/HistoryPanel.tsx:33-35 | a relative label names a positive count in decimal followed by its unit text |
| HistoryPanel.Decimal | src/components/HistoryPanel.tsx:33-35 | a count is printed as a non-empty string of decimal digits with no leading zero, and zero as `0` |
| HistoryPanel.DecimalRoundTrip | src/components/HistoryPanel.tsx:33-35 | reading back the printed count gives the count |
| HistoryPanel.TypeIcon | src/components/HistoryPanel.tsx:39-50 | any string that is not one of the seven type names gets the memo icon |
| HistoryPanel.IconsDistinct | src/components/HistoryPanel.tsx:39-50 | different data types get different icons |
| HistoryPanel.CurrentItems | src/components/HistoryPanel.tsx:52 | the recent tab shows the history and the favourites tab shows the favourites |
| HistoryPanel.CurrentItemsFromHistory | src/components/HistoryPanel.tsx:52 | with the hook's favourites view, either tab shows entries of the history in history order |

## Left out

- Loading the history from local storage and saving it back, including JSON parsing, is platform I/O. Only the list state is modelled.
- Ids from `Date.now()` and `Math.random()`, and timestamps from `Date.now()`, are method parameters, so their uniqueness is not modelled.
- The toast timer that removes a toast after its duration is timing. Its removal is the same operation as `RemoveToast`, and `ShowThenDismiss` states what it undoes.
- `toLocaleDateString` is locale-dependent. `FormatDate` returns the timestamp the date would be printed from.
- Registering the key listener and reading `document.activeElement` are DOM access. Their results are fields of the key event.
- The panel's open/closed and tab `useState` flags are rendering state. All JSX and styling are left out, as are the QR image library and the download and clipboard helpers.
- The development sample list `exampleData` (src/utils/dataTypeUtils.ts:160-169) is data, not behaviour.
- JavaScript strings are UTF-16, and lengths are counted in code units. The model uses Unicode scalar values. The only lengths the source compares belong to phone strings, which the phone pattern limits to ASCII.
- `toLowerCase` is modelled on ASCII letters only. No other character lower-cases to the ASCII letters of `enter`, `s`, `d` or `c`, so the shortcut rule is exact.
- HistoryPanel.TypeIcon: an object lookup of an inherited name such as `constructor` returns a non-string in JavaScript. The model gives the memo icon for every string outside the table.
- DataTypeUtils.NormalizePhoneNumber: its own contract states only that no separator is left. It is the composition of its three steps, and each step is stated in full by its own members: `StripSeparators` with `StripSeparatorsKeeps`, `DropCountryCode` with `DropCountryCodeInverse`, and `GuessMobilePrefix`.
- DataTypeUtils.WifiCaptures: it states that the captures come from one split of the input into keyword, separators, network and password, not which split the greedy, backtracking match picks when a fullwidth colon allows more than one.
- DataTypeUtils.WifiPayload: stated for a trimmed input whose last character is not whitespace, which is every input `formatDataType` passes. The plain `Trim(t) == t` form is equivalent but much more costly to prove.
- DataTypeUtils.WifiPayload: the payload is stated for some split of the input into keyword, separators, network and password, not for the one the greedy match picks. When a fullwidth colon allows several splits, as in `WiFi:a：b:c`, the contract admits each of their payloads (`S:a：b;P:c` and `S:a;P:b:c`), while the code produces only the one with the longest network (`S:a：b;P:c`).
- DataTypeUtils.FormatDataType: the per-kind payloads are stated by the `...Payload` lemmas, not by its own contract.

## Findings

| source | as written | input that shows it | evidently intended | confidence | as-written member | corrected member |
|---|---|---|---|---|---|---|
| src/utils/dataTypeUtils.ts:23, 107 | the SMS branch normalises capture group 2, but in the SMS pattern group 2 is only the optional `(\+?82[- ]?)` prefix, so the number itself is never used | `SMS:010-1234-5678` gives the payload `sms:` (and `SMS:+82 10-1234-5678` gives `sms:0`) | `sms:01012345678`, the number normalised as in the phone branch, for the sample input at src/utils/dataTypeUtils.ts:165 | not executed | DataTypeUtils.SmsPayloadDropsNumber | DataTypeUtils.IntendedSmsKeepsNumber |
