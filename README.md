# SF_Televideo navigation core in Dafny

A Dafny model of the navigation core of SF_Televideo, an Android viewer for
RAI's teletext service (Televideo). The model covers:

- **Page keys.** The repository's `parsePageKey` and the app's
  `parsePageAndSub` turn typed or tapped text into a page (`100`..`899`) and
  an optional subpage. They accept the separator form `261-02` or `261/02`
  (the same regular expression in both) and fall back to the first digits of
  the input. `keyFor` builds the key `261` or `261-02` that the history
  stores.
- **Navigation state.** The screen's current page and subpage, the undo
  history (at most 80 keys; only real page changes are pushed, and never
  during an undo), cyclic page swipes over 100..899 and subpage swipes over
  1..`maxSubpagesFor`.
- **Bookmarks.** The "bookmark" and "remove bookmark" actions keep a sorted
  list of distinct `Int`s. The list is saved as a set of strings and read
  back at start-up.
- **Click areas.** The `ClickArea` rectangle with inclusive edges and its
  area. The image-map `<area>` elements become click areas: coords parsing,
  the `find()` loops over the three href patterns, and subpage padding. The
  app chooses between the image map and OCR, and de-duplicates OCR areas
  with `distinctBy`.
- **Taps.** Tap pixels are clamped into the bitmap. A tap picks the smallest
  containing area, first one wins on ties, and `sanitizePage` cleans its
  page.
- **Swipes.** A drag is classified as a page swipe, a subpage swipe or
  nothing, with a 90 px threshold.
- **Keypad.** The page keypad holds at most three digits and confirms itself
  on a valid page. Its hint text, `formatPage` (`%03d`) and `pageForToast`
  are modelled too.

The modules follow the source:

| module | models |
|---|---|
| `Text` | Kotlin's `trim`, `filter { isDigit }`, `toIntOrNull` (32-bit, optional sign), `toString`, `padStart` and `split` |
| `PageSyntax` | page strings, subpage strings, the separator regular expression |
| `PageKey` | `parsePageKey` |
| `Navigation` | `parsePageAndSub`, `keyFor`, the cyclic steps and `maxSubpagesFor` |
| `Bookmarks` | the sorted list and its persistence |
| `App` | the `Navigator` class: the state of `TelevideoApp` and its handlers |
| `Models` | `ClickArea` |
| `HrefScan` | the three `java.util.regex` patterns and the `while (find())` loops |
| `Repository` | the URLs, `<area>` extraction, the MAP/OCR choice and OCR de-duplication |
| `Distinct` | `distinctBy` |
| `Components` | `sanitizePage`, the tap handling, the swipe detector |
| `Keypad` | the keypad dialog and the two formatters |

Where the code and its own comments disagree, the model follows the code:

- The doc comment of `parsePageAndSub` promises that
  `pagina=261&sottopagina=2` gives page 261, subpage 02. The code's digit
  fallback reads the digits `2612`, so it gives page 261 with subpage `01`
  (`Navigation.ParsePageAndSubDigits`).
- The doc comment of `parsePageKey` promises that `pagina=102&sottopagina=8`
  gives page 102, subpage 8. The code reads the digits `1028`, so it gives
  page 102 with no subpage (`PageKey.ParsePageKeyDigits`).

The `Navigator` keeps an invariant (`Valid`): the page and subpage are always
canonical and every history entry is a key `keyFor` produced. Under it, the
`toIntOrNull() ?: return` guards of the swipe handlers and the failing
parse of an undo target cannot fire. `Valid` is proved for every operation
rather than those branches being modelled.

## Model

| member | source | states |
|---|---|---|
| Text.TrimStart | app/src/main/java/com/example/sf_televideo/TelevideoApp.kt:84 | the result has no leading whitespace and is no longer than the input |
| Text.TrimEnd | app/src/main/java/com/example/sf_televideo/TelevideoApp.kt:84 | the result has no trailing whitespace and is no longer than the input |
| Text.Trim | app/src/main/java/com/example/sf_televideo/TelevideoApp.kt:84 | neither end of the result is whitespace |
| Text.TrimStartDropsWhitespace | app/src/main/java/com/example/sf_televideo/TelevideoApp.kt:84 | `trim` keeps a suffix of the input and drops only whitespace before it |
| Text.TrimEndDropsWhitespace | app/src/main/java/com/example/sf_televideo/TelevideoApp.kt:84 | `trim` keeps a prefix of the input and drops only whitespace after it |
| Text.TrimNoop | app/src/main/java/com/example/sf_televideo/TelevideoApp.kt:84 | a string with no whitespace at either end is unchanged by `trim` |
| Text.FilterDigits | app/src/main/java/com/example/sf_televideo/TelevideoApp.kt:98 | `filter { isDigit }` keeps only digits and never grows the string |
| Text.FilterDigitsOfDigits | app/src/main/java/com/example/sf_televideo/TelevideoApp.kt:98 | a run of digits passes the filter unchanged |
| Text.FilterDigitsOfNonDigits | app/src/main/java/com/example/sf_televideo/TelevideoApp.kt:98 | a string without digits filters to the empty string |
| Text.FilterDigitsAppend | app/src/main/java/com/example/sf_televideo/TelevideoApp.kt:98 | the digit filter distributes over concatenation |
| Text.NatOfBound | app/src/main/java/com/example/sf_televideo/TelevideoApp.kt:102 | an n-digit string reads below 10^n |
| Text.NatOfShort | app/src/main/java/com/example/sf_televideo/TelevideoApp.kt:90 | one or two digits read at most 99 |
| Text.ToIntOrNull | app/src/main/java/com/example/sf_televideo/TelevideoApp.kt:90 | `toIntOrNull` only yields values in the 32-bit `Int` range |
| Text.ToIntOfDigits | app/src/main/java/com/example/sf_televideo/TelevideoApp.kt:102 | a run of one to nine digits reads as its decimal value |
| Text.ToIntOfNegated | app/src/main/java/com/example/sf_televideo/TelevideoScreen.kt:190-191 | a minus sign followed by digits reads as the negated value when that fits in an `Int` |
| Text.ToIntOfUnsigned | app/src/main/java/com/example/sf_televideo/TelevideoScreen.kt:190-191 | unsigned digits that fit in an `Int` read as their value, whatever their length |
| Text.NatToString | app/src/main/java/com/example/sf_televideo/TelevideoApp.kt:190 | `Int.toString` of a non-negative value is a non-empty run of digits |
| Text.NatToStringRoundTrip | app/src/main/java/com/example/sf_televideo/TelevideoApp.kt:190 | reading back a non-negative `toString` gives the value, and only 0 prints with a leading zero |
| Text.IntToStringRoundTrip | app/src/main/java/com/example/sf_televideo/TelevideoApp.kt:70 | every `Int` survives `toString` followed by `toIntOrNull`, negative values included |
| Text.MinusNatToInt | app/src/main/java/com/example/sf_televideo/TelevideoApp.kt:70 | the negative form `-digits` reads back as the negated magnitude |
| Text.NatToStringLength | app/src/main/java/com/example/sf_televideo/TelevideoApp.kt:190-191 | values below 10, 100 and 1000 print with one, two and three digits |
| Text.NatToStringOfDigits | app/src/main/java/com/example/sf_televideo/TelevideoApp.kt:190 | a digit run without a leading zero is the `toString` of its value |
| Text.PadStart | app/src/main/java/com/example/sf_televideo/TelevideoApp.kt:94 | `padStart` keeps the string as a suffix and fills the front with the pad character up to the width |
| Text.NatOfPadZeros | app/src/main/java/com/example/sf_televideo/TelevideoApp.kt:94 | zero-padding does not change the value a digit run reads as |
| Text.Split | app/src/main/java/com/example/sf_televideo/TelevideoRepository.kt:211 | `split(",")` yields at least one piece and no piece contains the separator |
| Text.SplitJoin | app/src/main/java/com/example/sf_televideo/TelevideoRepository.kt:211 | joining the pieces of a split with the separator gives back the input |
| PageSyntax.PageStringValue | app/src/main/java/com/example/sf_televideo/TelevideoApp.kt:99-103 | three digits form a page string exactly when they read 100..899 |
| PageSyntax.PageStringToInt | app/src/main/java/com/example/sf_televideo/TelevideoApp.kt:91-92 | a page string reads as a number in 100..899 |
| PageSyntax.Pad2IsSubString | app/src/main/java/com/example/sf_televideo/TelevideoApp.kt:191 | `fmtSub` of 1..99 is a two-digit subpage string reading that value |
| PageSyntax.SubStringIsPad2 | app/src/main/java/com/example/sf_televideo/TelevideoApp.kt:191 | every two-digit subpage string is the `fmtSub` of its value |
| PageSyntax.Pad3IsPageString | app/src/main/java/com/example/sf_televideo/TelevideoApp.kt:190 | `fmtPage` of 100..899 is a page string reading that value |
| PageSyntax.PageStringIsPad3 | app/src/main/java/com/example/sf_televideo/TelevideoApp.kt:190 | every page string is the `fmtPage` of its value |
| PageSyntax.SkipSpace | app/src/main/java/com/example/sf_televideo/TelevideoApp.kt:87 | the regex `\s*` consumes exactly the maximal run of regex whitespace |
| PageSyntax.DigitRunEnd | app/src/main/java/com/example/sf_televideo/TelevideoApp.kt:87 | `\d*` ends at the first non-digit |
| PageSyntax.SepMatch | app/src/main/java/com/example/sf_televideo/TelevideoApp.kt:87 | a match of the separator regex has a page string as group 1 and one or two digits as group 2 |
| PageSyntax.NoSepMatchOnDigits | app/src/main/java/com/example/sf_televideo/TelevideoApp.kt:87 | a pure digit string never matches the separator regex |
| PageSyntax.SepMatchOf | app/src/main/java/com/example/sf_televideo/TelevideoRepository.kt:61 | `page` + `-` or `/` + one or two digits matches, with exactly those groups |
| PageKey.ParsePageKey | app/src/main/java/com/example/sf_televideo/TelevideoRepository.kt:57-83 | no contract of its own: `parsePageKey`, the trimmed key tried against the separator regex and otherwise read by the digit fallback; PageKey.ParsePageKeyValid, ParsePageKeySeparator and ParsePageKeyDigits state what it returns |
| PageKey.ParsePageKeyValid | app/src/main/java/com/example/sf_televideo/TelevideoRepository.kt:57-83 | an accepted key has a page string in 100..899 and, if any, a subpage in 1..99 |
| PageKey.ParsePageKeySeparator | app/src/main/java/com/example/sf_televideo/TelevideoRepository.kt:61-67 | in the separator form the subpage digits decide: 1..99 gives that subpage, otherwise the key is rejected |
| PageKey.ParsePageKeyOfSeparated | app/src/main/java/com/example/sf_televideo/TelevideoRepository.kt:61-67 | `ppp-s`, `ppp/ss` and the like parse to the page and the subpage's value when it is 1..99 |
| PageKey.ParsePageKeySeparatorZero | app/src/main/java/com/example/sf_televideo/TelevideoRepository.kt:65 | a separator-form subpage reading 0 rejects the whole key |
| PageKey.ParsePageKeyDigits | app/src/main/java/com/example/sf_televideo/TelevideoRepository.kt:69-82 | the digit fallback: fewer than three digits reject, the first three are the page when 100..899, digits four and five give the subpage only when they read 1..99 |
| PageKey.ParsePageKeyAllDigits | app/src/main/java/com/example/sf_televideo/TelevideoRepository.kt:69-70 | a key of digits only goes straight to the digit fallback |
| PageKey.ParsePageKeyZeroSubpage | app/src/main/java/com/example/sf_televideo/TelevideoRepository.kt:76-80 | `ppp00` keeps the page and has no subpage, unlike the separator form |
| Navigation.ParsePageAndSub | app/src/main/java/com/example/sf_televideo/TelevideoApp.kt:83-110 | no contract of its own: `parsePageAndSub`, the separator form tried first and the digit fallback otherwise; Navigation.ParsePageAndSubValid, ParsePageAndSubSeparator, ParsePageAndSubDigits and KeyForRoundTrip state what it returns |
| Navigation.AppSeparated | app/src/main/java/com/example/sf_televideo/TelevideoApp.kt:88-95 | no contract of its own: the separator branch; Navigation.ParsePageAndSubSeparator states its result |
| Navigation.AppDigitRun | app/src/main/java/com/example/sf_televideo/TelevideoApp.kt:98-109 | no contract of its own: the digit fallback; Navigation.DigitRunShort and DigitRunLong state its result |
| Navigation.KeyFor | app/src/main/java/com/example/sf_televideo/TelevideoApp.kt:112-113 | no contract of its own: `keyFor`; Navigation.KeyForRoundTrip, KeyForInjective and KeyForBarePage state its properties |
| Navigation.ParsePageAndSubValid | app/src/main/java/com/example/sf_televideo/TelevideoApp.kt:83-110 | an accepted input yields a page string in 100..899 and a two-digit subpage in 01..99 |
| Navigation.SeparatedValid | app/src/main/java/com/example/sf_televideo/TelevideoApp.kt:87-95 | the separator branch only yields canonical page and subpage strings |
| Navigation.DigitRunValid | app/src/main/java/com/example/sf_televideo/TelevideoApp.kt:97-109 | the digit branch only yields canonical page and subpage strings |
| Navigation.AppDigitRunValid | app/src/main/java/com/example/sf_televideo/TelevideoApp.kt:98-109 | the digit fallback on a digit run only yields canonical page and subpage strings |
| Navigation.ParsePageAndSubSeparator | app/src/main/java/com/example/sf_televideo/TelevideoApp.kt:87-95 | in the separator form the subpage is the value zero-padded to two digits, and a value of 0 rejects the input |
| Navigation.ParsePageAndSubDigits | app/src/main/java/com/example/sf_televideo/TelevideoApp.kt:97-109 | the digit fallback: fewer than three digits reject; the page is the first three digits in 100..899; the subpage is digits four and five when present and non-zero, `01` when absent |
| Navigation.DigitRunShort | app/src/main/java/com/example/sf_televideo/TelevideoApp.kt:99-105 | three or four digits give the page (if in range) and subpage `01` |
| Navigation.DigitRunLong | app/src/main/java/com/example/sf_televideo/TelevideoApp.kt:101-109 | five or more digits give the page and the next two digits, rejected when those read 0 |
| Navigation.DefaultSub | app/src/main/java/com/example/sf_televideo/TelevideoApp.kt:105-109 | the default subpage `01` is canonical and reads 1 |
| Navigation.ParsePageAndSubOfSeparated | app/src/main/java/com/example/sf_televideo/TelevideoApp.kt:87-95 | `ppp-s` or `ppp/ss` loads page `ppp` with the subpage padded to two digits |
| Navigation.KeyForRoundTrip | app/src/main/java/com/example/sf_televideo/TelevideoApp.kt:112-113 | parsing `keyFor(page, sub)` gives back the page and subpage |
| Navigation.BarePageParses | app/src/main/java/com/example/sf_televideo/TelevideoApp.kt:105 | a bare page string loads its first subpage `01` |
| Navigation.KeyForInjective | app/src/main/java/com/example/sf_televideo/TelevideoApp.kt:112-113 | on canonical pages and subpages two keys are equal exactly when page and subpage are |
| Navigation.KeyForBarePage | app/src/main/java/com/example/sf_televideo/TelevideoApp.kt:113 | the key is the bare page exactly for subpage `01` |
| Navigation.ParsePageAndSubRefinesPageKey | app/src/main/java/com/example/sf_televideo/TelevideoApp.kt:83-110 | whenever the app accepts an input the repository accepts it too, with the same page, and the app's subpage is the repository's padded or `01` |
| Navigation.NextPageCyclic | app/src/main/java/com/example/sf_televideo/TelevideoApp.kt:193 | no contract of its own: `nextPageCyclic`; Navigation.PageStepsInverse and ForwardPagesOrbit state its properties |
| Navigation.PrevPageCyclic | app/src/main/java/com/example/sf_televideo/TelevideoApp.kt:194 | no contract of its own: `prevPageCyclic`; Navigation.PageStepsInverse states its properties |
| Navigation.PageStepsInverse | app/src/main/java/com/example/sf_televideo/TelevideoApp.kt:193-194 | the cyclic page steps stay in 100..899, wrap exactly at the ends and undo each other |
| Navigation.ForwardPagesOrbit | app/src/main/java/com/example/sf_televideo/TelevideoApp.kt:193 | k forward steps land on page 100 + (cur - 100 + k) mod 800 |
| Navigation.MaxSubpagesFor | app/src/main/java/com/example/sf_televideo/TelevideoApp.kt:196-203 | page 102 has 11 subpages and every other page 1 |
| Navigation.NextSubCyclic | app/src/main/java/com/example/sf_televideo/TelevideoApp.kt:205 | no contract of its own: `nextSubCyclic`; Navigation.SubStepsInverse states its properties |
| Navigation.PrevSubCyclic | app/src/main/java/com/example/sf_televideo/TelevideoApp.kt:206 | no contract of its own: `prevSubCyclic`; Navigation.SubStepsInverse states its properties |
| Navigation.SubStepsInverse | app/src/main/java/com/example/sf_televideo/TelevideoApp.kt:205-206 | the cyclic subpage steps stay in 1..maxSub, Next wraps to 1 exactly from maxSub (when there are several), Prev wraps to maxSub exactly from 1, and they undo each other |
| Navigation.CoerceIn | app/src/main/java/com/example/sf_televideo/TelevideoApp.kt:233 | `coerceIn` clamps into the range and leaves values inside it unchanged |
| Navigation.PageAfterSwipe | app/src/main/java/com/example/sf_televideo/TelevideoApp.kt:235-239 | no contract of its own: the page chosen by `onSwipePage` for a delta; Navigation.PageSwipeBack states its properties |
| Navigation.SubAfterSwipe | app/src/main/java/com/example/sf_televideo/TelevideoApp.kt:253-257 | no contract of its own: the subpage chosen by `onSwipeSub` for a delta; its steps are the ones Navigation.SubStepsInverse describes |
| Navigation.PageSwipeBack | app/src/main/java/com/example/sf_televideo/TelevideoApp.kt:235-239 | a page swipe stays in range and the opposite swipe brings it back |
| Navigation.FormattedPageParses | app/src/main/java/com/example/sf_televideo/TelevideoApp.kt:240 | the page a swipe loads parses back to itself with subpage `01` |
| Navigation.FormattedSubParses | app/src/main/java/com/example/sf_televideo/TelevideoApp.kt:258 | the `page-sub` key a subpage swipe loads parses back to that page and subpage |
| Bookmarks.ConsSorted | app/src/main/java/com/example/sf_televideo/TelevideoApp.kt:265 | prepending a value at most the head keeps a list sorted |
| Bookmarks.ConsStrict | app/src/main/java/com/example/sf_televideo/TelevideoApp.kt:265 | prepending a value below every element keeps a list strictly ascending |
| Bookmarks.HeadIsLeast | app/src/main/java/com/example/sf_televideo/TelevideoApp.kt:265 | the head of a sorted list is at most every later element |
| Bookmarks.Insert | app/src/main/java/com/example/sf_televideo/TelevideoApp.kt:264-265 | inserting into a list adds exactly one element |
| Bookmarks.InsertSpec | app/src/main/java/com/example/sf_televideo/TelevideoApp.kt:264-265 | insertion into a sorted list keeps it sorted and adds exactly that element (as a multiset and as a set) |
| Bookmarks.InsertMultiset | app/src/main/java/com/example/sf_televideo/TelevideoApp.kt:264-265 | insertion adds the element to the multiset |
| Bookmarks.InsertMembers | app/src/main/java/com/example/sf_televideo/TelevideoApp.kt:264-265 | the members after insertion are the old ones plus the new one |
| Bookmarks.InsertSorted | app/src/main/java/com/example/sf_televideo/TelevideoApp.kt:264-265 | insertion into a sorted list keeps it sorted |
| Bookmarks.Sort | app/src/main/java/com/example/sf_televideo/TelevideoApp.kt:61 | `sorted()` keeps the length |
| Bookmarks.SortSpec | app/src/main/java/com/example/sf_televideo/TelevideoApp.kt:61 | `sorted()` gives a sorted permutation of its input |
| Bookmarks.InsertStrict | app/src/main/java/com/example/sf_televideo/TelevideoApp.kt:263-265 | inserting a new value into a strictly ascending list keeps it strictly ascending |
| Bookmarks.SortStrict | app/src/main/java/com/example/sf_televideo/TelevideoApp.kt:60-61 | sorting a list without duplicates gives a strictly ascending list |
| Bookmarks.SortOfSorted | app/src/main/java/com/example/sf_televideo/TelevideoApp.kt:265 | sorting a sorted list changes nothing |
| Bookmarks.InsertLargest | app/src/main/java/com/example/sf_televideo/TelevideoApp.kt:264-265 | a value at least every element is inserted at the end |
| Bookmarks.ConstantInsert | app/src/main/java/com/example/sf_televideo/TelevideoApp.kt:264-265 | a value equal to every element of a sorted list may go at either end |
| Bookmarks.AddThenSort | app/src/main/java/com/example/sf_televideo/TelevideoApp.kt:264-265 | `add` followed by `sort` on a sorted list is insertion into it |
| Bookmarks.RemoveFirst | app/src/main/java/com/example/sf_televideo/TelevideoApp.kt:270 | no contract of its own: `MutableList.remove(element)`; Bookmarks.RemoveFirstSpec and RemoveFirstStrict state its result |
| Bookmarks.RemoveFirstSpec | app/src/main/java/com/example/sf_televideo/TelevideoApp.kt:270 | `remove` drops one occurrence of a present element and leaves the list alone otherwise |
| Bookmarks.RemoveFirstStrict | app/src/main/java/com/example/sf_televideo/TelevideoApp.kt:270 | removing from a strictly ascending list keeps it strictly ascending and removes exactly that value |
| Bookmarks.ParsedNumbers | app/src/main/java/com/example/sf_televideo/TelevideoApp.kt:59 | `mapNotNull { toIntOrNull }` keeps exactly the numbers that the saved strings read as |
| Bookmarks.TailNumbers | app/src/main/java/com/example/sf_televideo/TelevideoApp.kt:59 | the numbers read from the tail of the saved strings are those of its elements after the first |
| Bookmarks.StartupBookmarks | app/src/main/java/com/example/sf_televideo/TelevideoApp.kt:57-61 | no contract of its own: `mapNotNull { toIntOrNull }.distinct().sorted()`; Bookmarks.StartupBookmarksSpec and PersistRoundTrip state its result |
| Bookmarks.StartupBookmarksSpec | app/src/main/java/com/example/sf_televideo/TelevideoApp.kt:56-65 | the startup list is strictly ascending and holds exactly the numbers read from the saved strings |
| Bookmarks.KeySetMembers | app/src/main/java/com/example/sf_televideo/TelevideoApp.kt:60 | the keys seen by `distinct` are exactly the elements |
| Bookmarks.Persisted | app/src/main/java/com/example/sf_televideo/TelevideoApp.kt:70 | each bookmark is saved as its `toString` |
| Bookmarks.StrictlySortedUnique | app/src/main/java/com/example/sf_televideo/TelevideoApp.kt:60-61 | two strictly ascending lists with the same members are equal |
| Bookmarks.SameHead | app/src/main/java/com/example/sf_televideo/TelevideoApp.kt:60-61 | two strictly ascending lists with the same members have the same head |
| Bookmarks.SameTails | app/src/main/java/com/example/sf_televideo/TelevideoApp.kt:60-61 | with equal heads, their tails have the same members |
| Bookmarks.PersistRoundTrip | app/src/main/java/com/example/sf_televideo/TelevideoApp.kt:56-73 | loading what `persistBookmarks` saved restores exactly the bookmark list |
| Bookmarks.SavedBookmarkLoads | app/src/main/java/com/example/sf_televideo/TelevideoApp.kt:56-73 | every bookmark is read back at startup |
| Bookmarks.LoadedBookmarkWasSaved | app/src/main/java/com/example/sf_televideo/TelevideoApp.kt:56-73 | every number read back at startup was a bookmark |
| App.PushedSpec | app/src/main/java/com/example/sf_televideo/TelevideoApp.kt:133-137 | a push appends the previous key and drops the oldest entry once there are more than 80 |
| App.UndoAfterLoadRestores | app/src/main/java/com/example/sf_televideo/TelevideoApp.kt:133-137 | after a pushing load to a different key, the newest history entry is the previous key on top of the old history (less its oldest entry when full) |
| App.KeyIsCanonical | app/src/main/java/com/example/sf_televideo/TelevideoApp.kt:112-113 | `keyFor` of a canonical page and subpage is a canonical key that splits back into them |
| App.KeyPartsSpec | app/src/main/java/com/example/sf_televideo/TelevideoApp.kt:112-113 | a canonical key splits into a page string and a subpage string whose `keyFor` is that key |
| App.CanonicalKeyParses | app/src/main/java/com/example/sf_televideo/TelevideoApp.kt:180-184 | a history key parses back into the page and subpage it was made from |
| App.PageStringInjective | app/src/main/java/com/example/sf_televideo/TelevideoApp.kt:232-240 | two page strings with the same value are equal |
| App.CoerceAtLeast | app/src/main/java/com/example/sf_televideo/TelevideoApp.kt:246 | `coerceAtLeast` raises a smaller value and leaves larger ones unchanged |
| App.Navigator.constructor | app/src/main/java/com/example/sf_televideo/TelevideoApp.kt:35-53 | the screen starts at page `100`, subpage `01`, with empty history and bookmarks |
| App.Navigator.Load | app/src/main/java/com/example/sf_televideo/TelevideoApp.kt:119-173 | an input that does not parse changes nothing; otherwise the parsed page and subpage go on screen, undo mode ends and the previous key is pushed when not undoing, when asked and when the key changes |
| App.Navigator.LoadKey | app/src/main/java/com/example/sf_televideo/TelevideoApp.kt:119-173 | loading a canonical key shows exactly that key |
| App.Navigator.LoadPageSub | app/src/main/java/com/example/sf_televideo/TelevideoApp.kt:258 | loading `fmtPage(p)-fmtSub(n)` shows page p, subpage n |
| App.Navigator.Show | app/src/main/java/com/example/sf_televideo/TelevideoApp.kt:126-145 | the new page and subpage go on screen and the history is updated as `load` describes |
| App.Navigator.Undo | app/src/main/java/com/example/sf_televideo/TelevideoApp.kt:175-185 | with empty history nothing changes; otherwise the newest entry is popped and shown and not pushed again |
| App.Navigator.SwipePage | app/src/main/java/com/example/sf_televideo/TelevideoApp.kt:231-241 | the page moves cyclically by the swipe's direction, subpage `01`, pushed to history |
| App.Navigator.SwipeSub | app/src/main/java/com/example/sf_televideo/TelevideoApp.kt:244-259 | on a single-subpage page nothing changes; otherwise the clamped subpage moves cyclically on the same page, pushed to history |
| App.Navigator.AddBookmark | app/src/main/java/com/example/sf_televideo/TelevideoApp.kt:261-268 | a numeric page not yet bookmarked is added in order and persisted; anything else changes nothing |
| App.Navigator.RemoveBookmark | app/src/main/java/com/example/sf_televideo/TelevideoApp.kt:269-273 | a present bookmark is removed and persisted; anything else changes nothing |
| App.Navigator.LoadBookmarks | app/src/main/java/com/example/sf_televideo/TelevideoApp.kt:56-65 | the bookmarks become the distinct sorted numbers read from the saved strings |
| App.Navigator.SavedBookmarks | app/src/main/java/com/example/sf_televideo/TelevideoApp.kt:67-73 | the saved set holds exactly the `toString` of each bookmark and nothing else |
| App.Navigator.SavedBookmarksReload | app/src/main/java/com/example/sf_televideo/TelevideoApp.kt:56-73 | reading back exactly what `persistBookmarks` saved, in any order, restores the Navigator's bookmark list |
| App.Navigator.Start | app/src/main/java/com/example/sf_televideo/TelevideoApp.kt:209-212 | the first load shows page `101`, without touching the history |
| Models.ClickArea.Left | app/src/main/java/com/example/sf_televideo/Models.kt:14 | no contract of its own: `minOf(x1, x2)` |
| Models.ClickArea.Right | app/src/main/java/com/example/sf_televideo/Models.kt:15 | no contract of its own: `maxOf(x1, x2)` |
| Models.ClickArea.Top | app/src/main/java/com/example/sf_televideo/Models.kt:16 | no contract of its own: `minOf(y1, y2)` |
| Models.ClickArea.Bottom | app/src/main/java/com/example/sf_televideo/Models.kt:17 | no contract of its own: `maxOf(y1, y2)` |
| Models.ClickArea.Contains | app/src/main/java/com/example/sf_televideo/Models.kt:23-25 | no contract of its own: `contains`; Models.ContainsIsClosedRectangle and SwapInvariant state its meaning |
| Models.ClickArea.Area | app/src/main/java/com/example/sf_televideo/Models.kt:30-34 | the area is at least 1 and at least the width and the height |
| Models.ClickArea.Normalised | app/src/main/java/com/example/sf_televideo/Models.kt:14-17 | the normalised rectangle has ordered corners, the same page and subpage and the same points |
| Models.ContainsIsClosedRectangle | app/src/main/java/com/example/sf_televideo/Models.kt:23-25 | a point is inside exactly when each coordinate lies between the two corners, edges included |
| Models.SwapInvariant | app/src/main/java/com/example/sf_televideo/Models.kt:14-34 | swapping the corners changes neither containment nor area |
| Models.CornersContained | app/src/main/java/com/example/sf_televideo/Models.kt:23-25 | all four corners lie inside the rectangle |
| Models.NormalisedSpec | app/src/main/java/com/example/sf_televideo/Models.kt:14-17 | normalising fixes ordered rectangles, ignores corner order and is idempotent |
| Models.AreaOfNormalised | app/src/main/java/com/example/sf_televideo/Models.kt:30-34 | the area is width times height, each at least 1 |
| HrefScan.IsWordChar | app/src/main/java/com/example/sf_televideo/TelevideoRepository.kt:201-205 | no contract of its own: the word characters for `\b`, taken as ASCII letters, digits and `_` (see Left out) |
| HrefScan.Boundary | app/src/main/java/com/example/sf_televideo/TelevideoRepository.kt:201-205 | no contract of its own: `\b`, a word character on exactly one side |
| HrefScan.WordAt | app/src/main/java/com/example/sf_televideo/TelevideoRepository.kt:201 | no contract of its own: a keyword with `\b` on both sides, as in `\bpagina\b` |
| HrefScan.ValueAt | app/src/main/java/com/example/sf_televideo/TelevideoRepository.kt:200-205 | a value group lies right after its start and is a page string, or one or two digits for the subpage pattern |
| HrefScan.KeyValueAt | app/src/main/java/com/example/sf_televideo/TelevideoRepository.kt:201-205 | a `key = value` match ends after its start and its group has the pattern's shape |
| HrefScan.MatchAt | app/src/main/java/com/example/sf_televideo/TelevideoRepository.kt:200-205 | a match at a position ends after it and its group has the pattern's shape |
| HrefScan.NoMatchBetweenSpec | app/src/main/java/com/example/sf_televideo/TelevideoRepository.kt:221 | no match starts anywhere in a range with no match |
| HrefScan.Find | app/src/main/java/com/example/sf_televideo/TelevideoRepository.kt:221 | `find()` returns the first position at or after the start where the pattern matches |
| HrefScan.FindSpec | app/src/main/java/com/example/sf_televideo/TelevideoRepository.kt:221 | `find()`'s result has no match before it, and a failed `find()` means no match at all |
| HrefScan.MatchesShape | app/src/main/java/com/example/sf_televideo/TelevideoRepository.kt:221 | every group found by the `find()` loop has the pattern's shape |
| HrefScan.Matches | app/src/main/java/com/example/sf_televideo/TelevideoRepository.kt:221 | no contract of its own: the matches repeated `find()` calls report; HrefScan.MatchesShape and LastGroupIsLastMatch state their properties |
| HrefScan.LastGroup | app/src/main/java/com/example/sf_televideo/TelevideoRepository.kt:219-230 | no contract of its own: what a `while (find())` loop leaves in its variable; HrefScan.LastGroupShape, LastGroupNone, LastGroupIsLastMatch and ScanLastGroup state its properties |
| HrefScan.LastGroupShape | app/src/main/java/com/example/sf_televideo/TelevideoRepository.kt:219-230 | the last group is a page string, or one or two digits for the subpage pattern |
| HrefScan.LastGroupNone | app/src/main/java/com/example/sf_televideo/TelevideoRepository.kt:219-230 | the loop finds nothing exactly when the pattern matches nowhere |
| HrefScan.LastGroupIsLastMatch | app/src/main/java/com/example/sf_televideo/TelevideoRepository.kt:219-230 | the group kept is that of a match after whose end no further match starts |
| HrefScan.ScanTake | app/src/main/java/com/example/sf_televideo/TelevideoRepository.kt:221 | taking a match moves the scan past its end and keeps its group |
| HrefScan.ScanSkip | app/src/main/java/com/example/sf_televideo/TelevideoRepository.kt:221 | a position without a match is skipped |
| HrefScan.ScanLastGroup | app/src/main/java/com/example/sf_televideo/TelevideoRepository.kt:219-230 | the `while (find())` loop ends with the group of the last match |
| HrefScan.ScanStep | app/src/main/java/com/example/sf_televideo/TelevideoRepository.kt:221 | one `find()` step advances and keeps the loop's final answer |
| Repository.PaginaJspUrl | app/src/main/java/com/example/sf_televideo/TelevideoRepository.kt:29-39 | no contract of its own: `paginaJspUrl`; Repository.PaginaJspUrlWithoutSub and PaginaJspUrlWithSub state its result |
| Repository.MapUrl | app/src/main/java/com/example/sf_televideo/TelevideoRepository.kt:42-43 | no contract of its own: `mapUrl`; Repository.PaginaJspUrlWithoutSub states it |
| Repository.PaginaJspUrlWithoutSub | app/src/main/java/com/example/sf_televideo/TelevideoRepository.kt:29-43 | without a subpage the page URL is the image-map URL `?pagina=page` |
| Repository.PaginaJspUrlWithSub | app/src/main/java/com/example/sf_televideo/TelevideoRepository.kt:33-38 | with a subpage the URL carries `p=`, the decimal `s=` and the fixed region and caller |
| Repository.IntTokens | app/src/main/java/com/example/sf_televideo/TelevideoRepository.kt:211 | no contract of its own: `mapNotNull { it.trim().toIntOrNull() }` over the pieces |
| Repository.CoordTokens | app/src/main/java/com/example/sf_televideo/TelevideoRepository.kt:208-211 | no contract of its own: the integer coords of a `coords` attribute; Repository.AreaFromElementSpec and MapAreasSkipsShortCoords use it |
| Repository.PageFromHref | app/src/main/java/com/example/sf_televideo/TelevideoRepository.kt:219-226 | no contract of its own: the page read from an href; Repository.PageFromHrefShape and PageFromHrefNone state its result |
| Repository.SubFromHref | app/src/main/java/com/example/sf_televideo/TelevideoRepository.kt:228-238 | no contract of its own: the padded subpage read from an href; Repository.SubFromHrefSpec states its result |
| Repository.AreaFromElement | app/src/main/java/com/example/sf_televideo/TelevideoRepository.kt:207-240 | no contract of its own: one element's contribution to the loop; Repository.AreaFromElementSpec and ElementArea state its result |
| Repository.MapAreas | app/src/main/java/com/example/sf_televideo/TelevideoRepository.kt:198-242 | no contract of its own: the image map's areas in element order; Repository.MapAreasWellFormed, MapAreasAppend and ExtractAreas state its properties |
| Repository.PageFromHrefShape | app/src/main/java/com/example/sf_televideo/TelevideoRepository.kt:219-226 | the page of an href is a page string, and a `pagina=`/`p=` value wins over a bare number |
| Repository.PageFromHrefNone | app/src/main/java/com/example/sf_televideo/TelevideoRepository.kt:219-232 | an href yields no page exactly when neither pattern matches anywhere |
| Repository.SubFromHrefSpec | app/src/main/java/com/example/sf_televideo/TelevideoRepository.kt:228-238 | the subpage is the last `sottopagina=`/`s=` value padded to two digits, with the same value |
| Repository.AreaFromElementSpec | app/src/main/java/com/example/sf_televideo/TelevideoRepository.kt:207-240 | an area is built exactly when there are four integer coords and a page; its corners are ordered, it covers the same points as the raw coords, and it carries the href's page and subpage |
| Repository.AreaFromElementWellFormed | app/src/main/java/com/example/sf_televideo/TelevideoRepository.kt:214-238 | every area built from an element has ordered corners and a page string |
| Repository.MapAreasWellFormed | app/src/main/java/com/example/sf_televideo/TelevideoRepository.kt:198-242 | the image map gives at most one area per element, each well formed |
| Repository.MapAreasAppend | app/src/main/java/com/example/sf_televideo/TelevideoRepository.kt:207-241 | each element adds its own area, if any, at the end |
| Repository.MapAreasPrefix | app/src/main/java/com/example/sf_televideo/TelevideoRepository.kt:207-241 | the areas of a prefix extend element by element |
| Repository.MapAreasSkipsShortCoords | app/src/main/java/com/example/sf_televideo/TelevideoRepository.kt:211-212 | an element with fewer than four integer coords is skipped |
| Repository.ExtractAreas | app/src/main/java/com/example/sf_televideo/TelevideoRepository.kt:195-242 | the loop over the `<area>` elements builds exactly the image map's areas |
| Repository.ElementArea | app/src/main/java/com/example/sf_televideo/TelevideoRepository.kt:208-240 | the loop body builds the area from min/max corners, the last page match and the padded subpage |
| Repository.SelectAreas | app/src/main/java/com/example/sf_televideo/TelevideoRepository.kt:253-260 | five or more image-map areas win; otherwise OCR's areas if any, else the image map's |
| Repository.OcrKey | app/src/main/java/com/example/sf_televideo/TelevideoRepository.kt:302 | no contract of its own: the key `page:x1:y1:x2:y2` |
| Repository.DistinctAreas | app/src/main/java/com/example/sf_televideo/TelevideoRepository.kt:302 | no contract of its own: OCR's `distinctBy`; Repository.DistinctAreasSpec states its result |
| Repository.DistinctAreasSpec | app/src/main/java/com/example/sf_televideo/TelevideoRepository.kt:302 | the de-duplicated OCR areas have pairwise distinct `page:x1:y1:x2:y2` keys, every key of the input survives, and each area kept is the first with its key |
| Distinct.DistinctFrom | app/src/main/java/com/example/sf_televideo/TelevideoRepository.kt:302 | no contract of its own: `distinctBy` continuing from a set of keys already seen; Distinct.DistinctFromKeys, DistinctFromSource and DistinctFromAppend state its result |
| Distinct.DistinctBy | app/src/main/java/com/example/sf_televideo/TelevideoRepository.kt:302 | no contract of its own: `distinctBy`; Distinct.DistinctBySpec states its result |
| Distinct.DistinctFromKeys | app/src/main/java/com/example/sf_televideo/TelevideoRepository.kt:302 | the de-duplicated list has pairwise distinct keys and covers every key not yet seen |
| Distinct.DistinctFromSource | app/src/main/java/com/example/sf_televideo/TelevideoRepository.kt:302 | each kept element is the first of its key in the input |
| Distinct.DistinctFromAppend | app/src/main/java/com/example/sf_televideo/TelevideoRepository.kt:302 | appending an element keeps it exactly when its key is new |
| Distinct.DistinctBySpec | app/src/main/java/com/example/sf_televideo/TelevideoRepository.kt:302 | `distinctBy` keeps the first element of each key, in order, with all keys present |
| Components.FirstPageFrom | app/src/main/java/com/example/sf_televideo/Components.kt:121 | `find` returns the first position holding three digits in 100..899 |
| Components.SanitizePage | app/src/main/java/com/example/sf_televideo/Components.kt:119-123 | no contract of its own: `sanitizePage`; Components.SanitizePageSpec, SanitizePageBlank and SanitizePageIdempotent state its result |
| Components.SanitizePageSpec | app/src/main/java/com/example/sf_televideo/Components.kt:119-123 | a page is extracted exactly when the text contains one; it is a page string and the first such |
| Components.SanitizePageBlank | app/src/main/java/com/example/sf_televideo/Components.kt:120 | a missing or blank page sanitises to nothing |
| Components.SanitizePageIdempotent | app/src/main/java/com/example/sf_televideo/Components.kt:119-123 | sanitising twice is sanitising once |
| Components.SanitizePageOfPage | app/src/main/java/com/example/sf_televideo/Components.kt:119-123 | a page string is kept as it is |
| Components.SanitizePageTakesPrefix | app/src/main/java/com/example/sf_televideo/Components.kt:121-122 | text starting with a page string sanitises to those three characters |
| Components.ClampPixel | app/src/main/java/com/example/sf_televideo/Components.kt:224-230 | the tap coordinate is clamped into the bitmap and left alone inside it |
| Components.Hits | app/src/main/java/com/example/sf_televideo/Components.kt:232 | filtering never adds areas |
| Components.HitsSpec | app/src/main/java/com/example/sf_televideo/Components.kt:232 | the hits are exactly the areas containing the tap point |
| Components.HitsAppend | app/src/main/java/com/example/sf_televideo/Components.kt:232 | filtering distributes over concatenation |
| Components.HitScore | app/src/main/java/com/example/sf_televideo/Components.kt:234-236 | no contract of its own: the score `minByOrNull` compares; Components.HitScoreIsArea and HitScoreOfSwappedCorners relate it to the area |
| Components.HitScoreIsArea | app/src/main/java/com/example/sf_televideo/Components.kt:234-236 | with ordered corners the tap's score is the area |
| Components.HitScoreOfSwappedCorners | app/src/main/java/com/example/sf_televideo/Components.kt:235 | with swapped x corners the width counts as 1 |
| Components.FirstMinIndex | app/src/main/java/com/example/sf_televideo/Components.kt:234 | the chosen index has the least score and every earlier element a larger one |
| Components.MinByOrNull | app/src/main/java/com/example/sf_televideo/Components.kt:234 | no contract of its own: `minByOrNull`; Components.MinByOrNullSpec states its result |
| Components.MinByOrNullSpec | app/src/main/java/com/example/sf_televideo/Components.kt:234-236 | `minByOrNull` is null exactly on an empty list and otherwise is the first least element |
| Components.TapHit | app/src/main/java/com/example/sf_televideo/Components.kt:232-236 | no contract of its own: the area a tap hits; Components.TapHitSpec states its result |
| Components.TapHitSpec | app/src/main/java/com/example/sf_televideo/Components.kt:232-236 | no hit exactly when no area contains the point; otherwise a containing area of least score, the first such among the hits |
| Components.TapTarget | app/src/main/java/com/example/sf_televideo/Components.kt:238-258 | no contract of its own: the area handed to `onTapArea`; Components.TapTargetSpec states its result |
| Components.TapTargetSpec | app/src/main/java/com/example/sf_televideo/Components.kt:238-258 | the tap is reported exactly when a hit exists and its page sanitises; the reported area is the hit with the sanitised page |
| Components.ClassifyDrag | app/src/main/java/com/example/sf_televideo/Components.kt:199-213 | no contract of its own: the decision of `onDragEnd`; Components.ClassifyDragSpec and ClassifyDragMirror state it |
| Components.ClassifyDragSpec | app/src/main/java/com/example/sf_televideo/Components.kt:199-213 | below 90 px on both axes nothing happens; a larger horizontal drag is a page swipe and otherwise a subpage swipe, delta +1 for a leftward or upward drag |
| Components.ClassifyDragMirror | app/src/main/java/com/example/sf_televideo/Components.kt:205-212 | the opposite drag gives the opposite swipe |
| Components.DragTracker.constructor | app/src/main/java/com/example/sf_televideo/Components.kt:185-186 | a drag starts from zero totals |
| Components.DragTracker.OnDragStart | app/src/main/java/com/example/sf_televideo/Components.kt:189-192 | a new drag resets the totals |
| Components.DragTracker.OnDrag | app/src/main/java/com/example/sf_televideo/Components.kt:193-198 | each drag event adds its movement to the totals |
| Components.DragTracker.OnDragEnd | app/src/main/java/com/example/sf_televideo/Components.kt:199-214 | the end of a drag reports the swipe its totals classify as |
| Keypad.IsValidEntry | app/src/main/java/com/example/sf_televideo/TelevideoScreen.kt:52-54 | no contract of its own: the dialog's `isValid`; Keypad.IsValidEntrySpec states its meaning |
| Keypad.IsValidEntrySpec | app/src/main/java/com/example/sf_televideo/TelevideoScreen.kt:52-54 | the dialog's `isValid` is exactly a page string, whatever the characters |
| Keypad.AutoConfirm | app/src/main/java/com/example/sf_televideo/TelevideoScreen.kt:29-35 | the confirmed page is the buffer itself |
| Keypad.AutoConfirmSpec | app/src/main/java/com/example/sf_televideo/TelevideoScreen.kt:29-35 | the buffer confirms exactly when it is a page string |
| Keypad.DropLast | app/src/main/java/com/example/sf_televideo/TelevideoScreen.kt:45 | `dropLast(1)` drops exactly the last character |
| Keypad.HintFor | app/src/main/java/com/example/sf_televideo/TelevideoScreen.kt:114-119 | no contract of its own: which hint the dialog shows; Keypad.HintForSpec and HintOpensConfirmed state it |
| Keypad.HintText | app/src/main/java/com/example/sf_televideo/TelevideoScreen.kt:114-119 | no contract of its own: the four hint texts |
| Keypad.HintForSpec | app/src/main/java/com/example/sf_televideo/TelevideoScreen.kt:114-119 | the four hints split the buffers: empty, one or two digits (with the count missing), a valid page, anything else |
| Keypad.HintOpensConfirmed | app/src/main/java/com/example/sf_televideo/TelevideoScreen.kt:114-119 | "Apro …" shows exactly for the buffers that confirm themselves |
| Keypad.PageKeypad.constructor | app/src/main/java/com/example/sf_televideo/TelevideoScreen.kt:27 | the keypad starts empty |
| Keypad.PageKeypad.AppendDigit | app/src/main/java/com/example/sf_televideo/TelevideoScreen.kt:37-42 | a full buffer ignores the digit; otherwise it is appended and the buffer is confirmed if it has become a page |
| Keypad.PageKeypad.TryAutoConfirm | app/src/main/java/com/example/sf_televideo/TelevideoScreen.kt:29-35 | only a complete buffer reading 100..899 is confirmed |
| Keypad.PageKeypad.Backspace | app/src/main/java/com/example/sf_televideo/TelevideoScreen.kt:44-46 | the last digit, if any, is dropped |
| Keypad.PageKeypad.Clear | app/src/main/java/com/example/sf_televideo/TelevideoScreen.kt:48-50 | the buffer is emptied |
| Keypad.BackspaceUndoesAppend | app/src/main/java/com/example/sf_televideo/TelevideoScreen.kt:37-46 | a backspace takes back the digit just appended |
| Keypad.TypingPageConfirmsOnThird | app/src/main/java/com/example/sf_televideo/TelevideoScreen.kt:29-42 | typing a page confirms on the third digit and not before |
| Keypad.ConfirmedPageLoads | app/src/main/java/com/example/sf_televideo/TelevideoScreen.kt:240-245 | a confirmed entry loads that page's first subpage |
| Keypad.FormatPage | app/src/main/java/com/example/sf_televideo/TelevideoScreen.kt:203 | `%03d` output has at least three characters |
| Keypad.ZeroPadded | app/src/main/java/com/example/sf_televideo/TelevideoScreen.kt:203 | the zero-padded digits are at least as long as the width; Keypad.PaddedDigits gives their value |
| Keypad.FormatPageIsPad3 | app/src/main/java/com/example/sf_televideo/TelevideoScreen.kt:203 | on non-negative values `%03d` is the app's three-digit padding |
| Keypad.FormatPageRoundTrip | app/src/main/java/com/example/sf_televideo/TelevideoScreen.kt:189-203 | every `Int` survives `%03d` and `toIntOrNull` |
| Keypad.NegativeRoundTrip | app/src/main/java/com/example/sf_televideo/TelevideoScreen.kt:203 | negative values survive `%03d` and `toIntOrNull` |
| Keypad.MinusPaddedToInt | app/src/main/java/com/example/sf_televideo/TelevideoScreen.kt:203 | `-` followed by the padded magnitude reads back as the negative value |
| Keypad.NonNegativeRoundTrip | app/src/main/java/com/example/sf_televideo/TelevideoScreen.kt:203 | non-negative values survive `%03d` and `toIntOrNull` |
| Keypad.PaddedDigits | app/src/main/java/com/example/sf_televideo/TelevideoScreen.kt:203 | the zero-padded digits read as the value |
| Keypad.BookmarkSelectLoads | app/src/main/java/com/example/sf_televideo/TelevideoScreen.kt:253-256 | selecting a bookmark in 100..899 loads that page's first subpage |
| Keypad.PageForToast | app/src/main/java/com/example/sf_televideo/TelevideoScreen.kt:189-192 | no contract of its own: `pageForToast`; Keypad.PageForToastOfText, PageForToastOfDigits and PageForToastIdempotent state its result |
| Keypad.PageForToastOfText | app/src/main/java/com/example/sf_televideo/TelevideoScreen.kt:189-192 | text that is not a number is shown as given |
| Keypad.PageForToastOfDigits | app/src/main/java/com/example/sf_televideo/TelevideoScreen.kt:189-192 | a run of up to nine digits is shown padded to three digits, so a page string is shown unchanged |
| Keypad.PageForToastIdempotent | app/src/main/java/com/example/sf_televideo/TelevideoScreen.kt:189-192 | formatting for the toast twice is formatting once |

## Left out

- Networking (OkHttp requests, `fetchBitmap`, the PNG URL guesses, `resolveImageUrlFromPaginaJsp`, Jsoup parsing and `absUrl`): I/O. `<area>` elements are given as their `coords` and resolved `href` strings.
- OCR (`fetchClickAreasOcr`, `splitLineBoxIntoPageAreas`): ML Kit text recognition is a foreign call. Its result is a parameter of `Repository.SelectAreas`, and only its final `distinctBy` is modelled (`Repository.DistinctAreas`).
- The on-screen correction of click areas (`correctedAreas`, which scales x1 and x2 by a horizontal factor damped by 0.81 when the image map looks too narrow, and `roundToInt` of the tap position): floating-point view geometry. Taps are given in bitmap pixels, then clamped (`Components.ClampPixel`).
- Components.ClassifyDrag: drag totals are Dafny `real`s, not 32-bit `Float`s, so rounding of the accumulated totals is not modelled.
- Coroutines: `loadJob` cancellation, the asynchronous bitmap and area fetch, `isLoading` and `errorText`. `load` is modelled as synchronous, so `isUndoing` is cleared when the new page is shown rather than in the coroutine's `finally`.
- DataStore: the saved bookmark set is a sequence of strings given to `App.Navigator.LoadBookmarks`. `App.Navigator.SavedBookmarks` is the set `persistBookmarks` writes.
- Compose UI: the toolbar, dialogs, toast overlay and `delay(80)`, `GestureHelpOverlay`, `MainActivity`, and the debug overlay and logging.
- HrefScan.IsWordChar: word characters for `\b` are ASCII letters, digits and `_`, and `\d` and `\s` inside the href patterns are ASCII too. On Android, `java.util.regex` counts Unicode letters and digits as word characters, so a number or keyword next to an accented letter (`é261`) matches in the model (HrefScan.Boundary holds there) but not in the app.
- Text: digits are ASCII `0`..`9` and whitespace is a fixed list of characters. Unicode digits that Kotlin's `isDigit` accepts are not modelled, nor the locale digits `String.format` can produce.
- Models.ClickArea.Area: computed on unbounded integers; Kotlin's 32-bit `Int` multiplication can wrap for very large rectangles.
- Components.HitScore: computed on unbounded integers; the 32-bit wrap-around of the width times height product is not modelled.
