# mtg-cube-tool-react: the deck engine, modelled in Dafny

The app keeps a collection of Magic: The Gathering decklists and merges the
selected ones into one "cube" index. This project models the part of
`src/App.js` that holds logic and proves properties of it:

- **Parsing.** `parseDeckText` turns decklist text into
  `{ name, cards, colour }`.
- **Naming and colour.** A new deck (pasted or uploaded) gets a name and a
  colour through a chain of fallbacks.
- **Collection updates.** Removing, toggling selection, renaming, importing
  and exporting decks.
- **Aggregation.** The `aggregated` memo builds
  `card -> deck name -> { number, colour }` over the selected decks.
- **The card list.** The `cardList` memo filters the index by a search
  text and sorts it in one of three orders.

JavaScript objects used as dictionaries become insertion-ordered association
lists, `seq<(string, V)>` (module `Assoc`). Strings are `seq<char>`.
Module `Text` writes out the string built-ins the code calls:

- `trim`;
- ASCII `toUpperCase` and `toLowerCase`;
- `split` and `join`;
- `indexOf`, `includes` and `startsWith`;
- `replace(/\s+/g, '_')`;
- `parseInt(_, 10)`;
- `localeCompare(...) <= 0`, as plain lexicographic order (`LexLe`).

The line-break replacements `replace(/\r\n/g, '\n')` and
`replace(/\r/g, '\n')` are in `DeckParser`. The extension strip
`replace(/\.[^/.]+$/, '')` is in `DeckNaming`.

The loops of the source are methods with loop invariants. Each is proved
equal to a specification function:

- `ParseDeckText` equals `ParseDeck`;
- `Aggregate` and `AddDeckCards` equal `AggregateDecks` and `AddCards`.

The two handlers that build a deck, `AddManualDeck` and `UploadDeck`, have
no loop of their own. They call `ParseDeckText` and are proved equal to
`ManualDeck` and `UploadedDeck`.

The sort of the card list is an insertion sort that runs in place on an
`array`.

Lemmas relate the specification functions to independent reference
definitions:

- summed quantities (`Total`) and the last colour directive (`LastColour`);
- the last selected deck of a name (`Expected`);
- membership in some selected deck (`HeldBySelected`);
- the first write of each key (`FirstWrite`), for the order of a deck's
  card names and of the deck names in a cell.

Modules, one file each:

- `Wrappers`, `Decks`, `Text`, `Assoc`: shared definitions;
- `DeckParser`;
- `DeckNaming`;
- `Collection`;
- `Aggregation`;
- `CardView`.

Some things `src/App.js` does are not what a user would expect. The model
follows the code:

- **`COLOUR=#ff0000` sets nothing.** A user would expect a hexadecimal
  colour directive to set that colour. But `src/App.js` cuts the value at
  the first `#`, which it treats as the start of a comment, so
  `COLOUR=#ff0000` sets nothing (`DeckParser.HashValueIgnored`).
- **Imported ids are kept.** A user would expect imported decks to get
  fresh ids. But `{ id: makeId(), ...d }` puts the record's own `id` last,
  so it wins (`Collection.NormaliseRecord`). Re-importing an export
  therefore duplicates ids (`Collection.ReimportDuplicatesIds`).
- **Zero and negative quantities are stored.** A user would expect every
  stored quantity to be at least 1. But any integer `parseInt` accepts is
  stored and summed, zero and negatives included
  (`Text.ParseIntReadsNegativeNumeral`, `DeckParser.CardsFoldFromEmpty`).
- **Unknown sort values use shared order.** A `sortBy` value other than
  `alpha` and `decks` sorts in shared order (`CardView.ModeOf`).

## Model

| member | source | states |
|---|---|---|
| DeckParser.ParseDeckText | src/App.js:23-49 | the parser's result is the left fold of the one-line step over the lines of the text, starting from the empty deck with the fallback name; empty text returns that empty deck at once |
| DeckParser.ParseLine | src/App.js:28-46 | one loop iteration: blank lines are skipped, a directive sets the colour only when its value is non-empty, any other line goes to the card branch |
| DeckParser.CardLine | src/App.js:39-46 | a line read as a card line names a non-empty card without `(`; `CardLineOfJoin` states in both directions which lines are card lines |
| DeckParser.CardLineOfJoin | src/App.js:39-46 | words joined by whitespace runs form a card line exactly when there are at least two, `parseInt` reads the first, and the name before any `(` is non-empty; the card and quantity are then that name and number |
| DeckParser.OneTokenLine | src/App.js:41 | a line of one token names no card, whether or not it is a number |
| DeckParser.UnnumberedLine | src/App.js:40-41 | a line whose first word `parseInt` cannot read names no card |
| DeckParser.UnnumberedWord | src/App.js:40 | `parseInt` reads no number from a word exactly when it starts neither with a digit nor with a sign followed by a digit |
| DeckParser.NoteOnlyLine | src/App.js:42-45 | a quantity followed only by words from a `(` on names no card, because the name before the `(` is empty |
| DeckParser.IgnoredLine | src/App.js:28-46 | a non-blank line that is not a directive and not of the card form leaves the deck unchanged |
| DeckParser.UnreadLineIgnored | src/App.js:28-46 | the same for a line of words joined by whitespace runs: any such line that is not of the card form leaves the deck unchanged |
| DeckParser.LoneWordsIgnored | src/App.js:41 | `Sideboard` and `4` on their own name no card |
| DeckParser.BoltWithoutQuantity | src/App.js:40-41 | `Lightning Bolt` names no card |
| DeckParser.FoilWithoutName | src/App.js:42-45 | `3 (foil)` names no card |
| DeckParser.CardName | src/App.js:42-44 | the name taken from the tokens after the quantity never contains `(` |
| DeckParser.CardNamePlain | src/App.js:42-44 | tokens without `(` give the name they spell, joined by single spaces, and it is non-empty |
| DeckParser.CardNameCut | src/App.js:43-44 | the tokens from the first one that starts with `(` on are dropped, and what remains is trimmed |
| DeckParser.CardLineWords | src/App.js:39 | a quantity token and words joined by any whitespace runs split back into exactly those tokens |
| DeckParser.CardLineWordsTail | src/App.js:39 | the same when the name's words are followed by further words |
| DeckParser.CardLineReads | src/App.js:39-45 | round trip: the line `q w1 ... wn` (any whitespace runs between tokens, no `(` in the words) reads as the card `w1 ... wn` joined by single spaces, with the quantity `parseInt(q)` |
| DeckParser.CardLineCutsAtParenthesis | src/App.js:39-45 | `q w1 ... wn (x ...` reads as the card `w1 ... wn`: the `(` and everything after it are dropped |
| DeckParser.CardLineAdds | src/App.js:28-45 | a line whose trimmed text is such a card line adds `parseInt(q)` to that card: `cards[name] = (cards[name] \|\| 0) + n` |
| DeckParser.NumberTokenHead | src/App.js:40-41 | a token that `parseInt` reads starts with a sign or a digit |
| DeckParser.NotDirectiveOfNumber | src/App.js:30-31 | a line starting with a sign or a digit is never a colour directive |
| DeckParser.IsDirective | src/App.js:30-31 | the directive test: the upper-cased line starts with `COLOUR` or `COLOR` and the line contains `=`; `NotDirectiveOfNumber` shows card lines never pass it |
| DeckParser.DirectiveValue | src/App.js:32-35 | a directive value never contains `#` or `=`; `DirectiveValueReads` states which value it is |
| DeckParser.DirectiveValueReads | src/App.js:32-35 | for `key=v` followed by nothing or by another `=`, with no `=` in `key` or `v`, the value is `v` cut at its first `#` and trimmed |
| DeckParser.DirectiveLineSetsColour | src/App.js:31-37 | a directive line `key=v`, possibly followed by further `=` pieces, adds no card; it sets the colour to `v` cut at its first `#` and trimmed, and leaves the deck unchanged when that is empty |
| DeckParser.Lines | src/App.js:26 | the text splits into at least one line, none holding an LF, and joining the lines by LF gives back the text with normalised line breaks |
| DeckParser.LineCard | src/App.js:28-46 | a line contributes a card only when it is not a directive, and the card's name is non-empty and free of `(` |
| DeckParser.LineColour | src/App.js:28-37 | a line sets a colour only when it is a directive, and the colour is non-empty and free of `#` and `=` |
| DeckParser.NormaliseNewlines | src/App.js:26 | no CR survives the CRLF and CR replacement; the `LinesOf` lemmas state how the text then splits |
| DeckParser.ReplaceCrLf | src/App.js:26 | the CRLF replacement never lengthens the text; the lemmas below state what it does to line breaks |
| DeckParser.ReplaceCrLfWithoutCr | src/App.js:26 | text without CR is left unchanged by the CRLF replacement |
| DeckParser.ReplaceCrLfWithoutLf | src/App.js:26 | text without LF is left unchanged by the CRLF replacement |
| DeckParser.ReplaceCrLfPassesThrough | src/App.js:26 | a CR-free part passes through unchanged in front of whatever follows |
| DeckParser.ReplaceCrLfOfJoin | src/App.js:26 | lines joined by CRLF come out joined by LF |
| DeckParser.ReplaceCrOfLine | src/App.js:26 | text without CR is left unchanged by the CR replacement |
| DeckParser.ReplaceCrConcat | src/App.js:26 | the CR replacement works piece by piece |
| DeckParser.ReplaceCrOfJoin | src/App.js:26 | lines joined by CR come out joined by LF |
| DeckParser.LinesOfLf | src/App.js:26 | lines without line breaks, joined by LF, split back into exactly those lines |
| DeckParser.LinesOfCrLf | src/App.js:26 | the same lines joined by CRLF split back into exactly those lines |
| DeckParser.LinesOfCr | src/App.js:26 | the same lines joined by CR split back into exactly those lines |
| DeckParser.LineBreaksAgree | src/App.js:26 | text with CRLF or CR line breaks parses to the same deck as the same lines with LF breaks |
| DeckParser.ReplaceCr | src/App.js:26 | every CR becomes LF and every other character is kept |
| DeckParser.LineEndingsIrrelevant | src/App.js:26 | normalising the line breaks before parsing changes nothing: the parser does it already |
| DeckParser.EmptyDeck | src/App.js:24 | the initial `{ name: fallbackName, cards: {}, colour: '' }`; `EmptyTextShortcut` and `ParseDeckNameAndColour` state what the parser makes of it |
| DeckParser.StartsWithHead | src/App.js:31 | a string that starts with a non-empty prefix begins with the prefix's first character |
| DeckParser.EmptyTextShortcut | src/App.js:25 | the early return for empty text agrees with running the loop on `""` |
| DeckParser.LineKinds | src/App.js:29-38 | a line that names a card never sets the colour; a blank line does neither |
| DeckParser.BlankLineIgnored | src/App.js:28-29 | inserting a blank or whitespace-only line anywhere leaves the result unchanged |
| DeckParser.ParseLinesConcat | src/App.js:27-47 | the loop over `a + b` is the loop over `b` started from the result over `a` |
| DeckParser.ParseDeckNameAndColour | src/App.js:24-37 | the name stays the fallback name; the colour is the value of the last directive with a non-empty value, else `""` |
| DeckParser.ParsedNameAndColour | src/App.js:36-37 | card lines never change the name or the colour, for any starting deck |
| DeckParser.HashValueIgnored | src/App.js:32-36 | a directive whose value starts with `#` leaves the deck unchanged |
| DeckParser.ParseDeckCards | src/App.js:45 | the card map is the fold of the lines' contributions into an empty map |
| DeckParser.CardsFoldFromEmpty | src/App.js:45 | a card is present exactly when some line names it, and its quantity is the sum of those lines' quantities |
| DeckParser.FoldTotals | src/App.js:45 | from any starting map, a named card holds its old quantity (or 0) plus the sum of the contributions; others keep their entry |
| DeckParser.ParseLinesCards | src/App.js:27-47 | the loop's card map depends only on each line's contribution |
| DeckParser.ApplyLine | src/App.js:28-46 | the specification of one loop iteration; `ParseLine` is proved equal to it, and `LineKinds`, `CardLineAdds`, `DirectiveLineSetsColour`, `BlankLineIgnored`, `IgnoredLine` and `UnreadLineIgnored` state its cases |
| DeckParser.ParseLines | src/App.js:27-47 | the loop as a left fold over the lines; `ParseLinesConcat` and `ParseLinesCards` state its properties |
| DeckParser.ParseDeck | src/App.js:23-49 | the specification of `parseDeckText`; `ParseDeckText` is proved equal to it, and the `ParseDeck...` lemmas state what it computes |
| DeckParser.Accumulate | src/App.js:45 | `cards[name] = (cards[name] \|\| 0) + n`; `CardsAfterLookup` and `FoldTotals` state its effect |
| DeckParser.CardsFoldKeys | src/App.js:45 | the card names of the fold are those the contributions write, in order of first write, each once |
| DeckParser.ParseDeckCardOrder | src/App.js:27-47 | `Object.keys(deck.cards)` holds each card mentioned by some line exactly once, ordered by the line that first mentions it |
| DeckParser.ParseDeckFirstCard | src/App.js:55-56 | the first key of the parsed cards is the card of the first line that names any card; no line before it names one |
| DeckParser.DigitToken | src/App.js:40-41 | a one-digit token is a token `parseInt` reads as that digit |
| DeckParser.CutLine | src/App.js:39-45 | `q w (x` reads as the card `w` with quantity `parseInt(q)` |
| DeckParser.IslandFoilLine | src/App.js:39-45 | `3 Island (foil)` reads as three of `Island` |
| DeckParser.TrimOfWordPair | src/App.js:28 | two words joined by a space are already trimmed |
| DeckParser.NumberedLineAdds | src/App.js:28-45 | the line `q w` adds `parseInt(q)` of the one-word card `w` to any deck |
| DeckParser.LinesOfTwo | src/App.js:26 | two single lines joined by LF split into exactly those two lines |
| DeckParser.ParseTwoLines | src/App.js:27-47 | the loop over two lines applies the first line, then the second |
| DeckParser.TwoLineText | src/App.js:26-47 | the text `q1 w LF q2 w` parses as its two lines, in order |
| DeckParser.SameCardLinesAdd | src/App.js:27-47 | two lines naming the same card add both quantities to it, in order |
| DeckParser.AccumulateTwice | src/App.js:45 | two additions under one name, starting from no cards, leave that name with the sum |
| DeckParser.RepeatedCardAddsUp | src/App.js:23-49 | the text `2 Mountain` LF `1 Mountain` parses to exactly three of `Mountain` |
| DeckParser.ParseDeckWellFormed | src/App.js:42-45 | card names are unique, non-empty and free of `(` |
| DeckParser.FoldUniqueKeys | src/App.js:45 | adding quantities keeps each card name once |
| DeckParser.FoldAcceptableKeys | src/App.js:44-45 | every stored name is non-empty and free of `(` when every contribution is |
| DeckParser.LineEntriesAcceptable | src/App.js:42-45 | every line contributes either nothing or a non-empty name without `(` |
| DeckParser.MentionedSnoc | src/App.js:45 | a later line names a card exactly when the earlier lines or the new one does |
| DeckParser.CardsAfterLookup | src/App.js:45 | one `cards[name] = (cards[name] \|\| 0) + n` step adds `n` to that name's running total and leaves other names alone |
| Text.ParseIntReadsNumeral | src/App.js:40 | `parseInt` reads back the decimal numeral of `n` and ignores the text after it |
| Text.ParseIntReadsNegativeNumeral | src/App.js:40 | after a minus sign it reads `-n`: negative quantities are accepted |
| Text.ParseIntReadsDigits | src/App.js:40 | `parseInt` of a digit run followed by a non-digit is the value of the digits |
| Text.ReadDigitsOfNumeral | src/App.js:40 | reading the longest digit prefix of `digits + rest` yields the value of `digits` |
| Text.ReadDigitsOfNat | src/App.js:40 | the digit reader reads back the numeral of `n` |
| Text.ParseIntOfDigitStart | src/App.js:40 | an unsigned token is read by the digit reader alone |
| Text.ParseIntOfMinus | src/App.js:40 | a token with a minus sign reads the negation of the digits after it |
| Text.DigitPrefixOfNumeral | src/App.js:40 | the digit prefix of `digits + rest` is exactly `digits` when `rest` starts with a non-digit |
| Text.Trim | src/App.js:28 | the trimmed string has no whitespace at either end, is no longer than the input, and holds only characters of the input |
| Text.TrimExact | src/App.js:28 | the trimmed string is exactly the slice of the input between a blank prefix and a blank suffix |
| Text.TrimBetween | src/App.js:28 | a trailing-trimmed prefix of a leading-trimmed suffix is a slice of the input with only whitespace around it |
| Text.TrimStartBlankPrefix | src/App.js:28 | a blank prefix makes no difference to the leading trim |
| Text.TrimEndBlankSuffix | src/App.js:28 | a blank suffix makes no difference to the trailing trim |
| Text.TrimOfPaddedEnd | src/App.js:44 | a non-empty unpadded string followed by whitespace trims to itself |
| Text.Upper | src/App.js:30 | one character per character, ASCII letters upper-cased |
| Text.Lower | src/App.js:110-111 | one character per character, ASCII letters lower-cased |
| Text.ContainsMeaning | src/App.js:111 | `includes` holds exactly when the text occurs at some position |
| Text.Contains | src/App.js:111 | `includes`; `ContainsMeaning` relates it to its reference definition |
| Text.ParseIntPrefix | src/App.js:40-41 | `parseInt` is `NaN` exactly when, after leading whitespace and an optional sign, no digit follows |
| Text.JoinWith | src/App.js:42 | `join`; `SplitOnJoin`, `WordsOfJoin` and the `Join` lemmas state its properties |
| Text.JoinCons | src/App.js:42 | joining a head and a non-empty rest puts the separator between them |
| Text.JoinAppend | src/App.js:42 | joining two non-empty lists is joining each and putting the separator between |
| Text.JoinWithout | src/App.js:42 | a character in neither the parts nor the separator is not in the join |
| Text.JoinEnds | src/App.js:42 | a join of non-empty parts starts with the first part's first character and ends with the last part's last |
| Text.JoinTwo | src/App.js:42 | two parts joined have the separator between them |
| Text.JoinThree | src/App.js:42 | three parts joined by a space have a space between each pair |
| Text.SplitOnNone | src/App.js:26 | a string without the separator splits into itself |
| Text.SplitOnJoin | src/App.js:26 | splitting separator-free pieces joined by the separator gives back the pieces |
| Text.SplitOnFirstPieceIs | src/App.js:32 | the first piece is everything up to the first separator |
| Text.IndexOfAt | src/App.js:43 | a position holding the character with none before it is what `indexOf` finds |
| Text.WordPrefixOf | src/App.js:39 | a word followed by whitespace or nothing is the first token |
| Text.WordsSkipBlank | src/App.js:39 | leading whitespace does not change the tokens |
| Text.WordsSingle | src/App.js:39 | a word on its own is one token |
| Text.WordsCons | src/App.js:39 | a word, a whitespace run and more text: the word is the first token |
| Text.WordsOfJoin | src/App.js:39 | round trip: words joined by whitespace runs tokenise back into the words |
| Text.ReplaceSpaceRunsKeepsHead | src/App.js:56 | a leading non-space is kept |
| Text.ReplaceSpaceRunsWordFirst | src/App.js:56 | a leading word is kept unchanged |
| Text.ReplaceSpaceRunsRun | src/App.js:56 | a whitespace run becomes one `_` |
| Text.ReplaceSpaceRunsCons | src/App.js:56 | a word, a whitespace run and more text become the word, `_` and the rest replaced |
| Text.ReplaceSpaceRunsOfJoin | src/App.js:56 | words joined by whitespace runs come out joined by single underscores |
| Text.TrimEmptyIffBlank | src/App.js:29 | `!line.trim()` holds exactly when the line is all whitespace |
| Text.TrimIdempotent | src/App.js:100 | trimming twice is trimming once |
| Text.TrimOfUnpadded | src/App.js:53 | a string without whitespace at its ends is its own trim |
| Text.IndexOf | src/App.js:33-44 | `indexOf` finds the first occurrence, and `None` means there is none |
| Text.CutAt | src/App.js:33-34 | the cut string is a prefix without the cut character, ending right before its first occurrence; nothing is cut when the character is absent |
| Text.SplitOn | src/App.js:26-32 | the pieces contain no separator and joining them with it gives back the input |
| Text.SplitOnFirst | src/App.js:32 | the first piece of `split('=')` is everything before the first `=` |
| Text.SplitOnFirstPiece | src/App.js:32 | a string that starts with a non-separator has a first piece starting with that character |
| Text.WordPrefix | src/App.js:39 | the first token is the longest prefix without whitespace |
| Text.Words | src/App.js:39 | `split(/\s+/)` tokens are never empty; `WordsOfJoin` states which tokens a line of words gives |
| Text.ReplaceSpaceRuns | src/App.js:56 | the result has no whitespace, is empty only for empty input, and equals the input when it has none; `ReplaceSpaceRunsOfJoin` states what happens to whitespace runs |
| Text.LexLe | src/App.js:112-114 | `localeCompare(...) <= 0` as plain lexicographic order; `LexLeTotal`, `LexLeTransitive` and `LexLeAntisymmetric` state that it is a total order |
| Text.StartsWith | src/App.js:31 | `startsWith`; `StartsWithHead` states that a match begins with the prefix's first character |
| Text.LexLeTotal | src/App.js:112 | any two strings are comparable |
| Text.LexLeTransitive | src/App.js:112 | the string order is transitive |
| Text.LexLeAntisymmetric | src/App.js:112 | strings that order both ways are equal |
| Text.NatToStringValue | src/App.js:57 | the numeral of `n` denotes `n` |
| Text.NatToString | src/App.js:57 | the numeral is a non-empty string of digits |
| Assoc.Keys | src/App.js:55 | `Object.keys` lists one key per entry, in order |
| Assoc.LookupDefined | src/App.js:45 | a key reads a value exactly when it is a key |
| Assoc.Lookup | src/App.js:45 | `m[k]`, with `None` for `undefined`; `LookupDefined` and `LookupPut` state what it reads |
| Assoc.Put | src/App.js:45 | `m[k] = v`; `LookupPut` states what it stores and `PutKeys` how the key order changes |
| Assoc.LookupPut | src/App.js:45 | after `m[k] = v`, `k` reads `v` and every other key is unchanged |
| Assoc.PutKeys | src/App.js:45 | `m[k] = v` keeps the keys in order and appends `k` when it is new |
| Assoc.PutKeysMembership | src/App.js:45 | the keys after `m[k] = v` are the old keys and `k` |
| Assoc.PutKeepsUniqueKeys | src/App.js:45 | writing a key keeps every key unique |
| Assoc.PutPut | src/App.js:105 | writing a key twice is writing it once with the second value |
| Assoc.KeysSnocMembership | src/App.js:105 | the keys of a list are those of its prefix and its last key |
| Assoc.FirstWrite | src/App.js:45 | the position of the first write of a key: every earlier write is of another key |
| Assoc.KeyFoldOrder | src/App.js:45 | after a sequence of writes the keys are exactly the keys written, each once, ordered by their first write |
| Assoc.KeyFoldFirst | src/App.js:55-56 | nothing is written before the first write of the first key |
| DeckNaming.ResolveColour | src/App.js:59-61 | the three reassignments of `colour` compute the fallback: the parsed colour, else the trimmed free text, else the picker |
| DeckNaming.TextFallback | src/App.js:60 | the colour after the free-text step; `ColourGuards` states when it is blank, and `ResolveColour` asserts it as the intermediate value |
| DeckNaming.ColourGuards | src/App.js:59-61 | the tests `!s \|\| !s.trim()` and `s && s.trim()` are blankness tests, and after the free-text step the colour is blank exactly when the parsed colour and the free text both are |
| DeckNaming.ResolvedColourBlank | src/App.js:59-61 | the resolved colour is blank exactly when all three sources are |
| DeckNaming.AddManualDeck | src/App.js:51-64 | appends exactly one deck: the parsed cards, the trimmed name, else the first card name with whitespace runs as `_`, else `deck_<count+1>`; the resolved colour; selected |
| DeckNaming.ManualNameUnpadded | src/App.js:53-58 | the manual name is non-empty and has no surrounding whitespace |
| DeckNaming.ManualDeckNameUnpadded | src/App.js:52-58 | the deck added from pasted text always has a non-empty, trimmed name |
| DeckNaming.DefaultNameUnpadded | src/App.js:57 | `deck_<n>` is non-empty and trimmed |
| DeckNaming.FirstCardName | src/App.js:55-56 | there is a first card name exactly when there are cards, and it has no whitespace |
| DeckNaming.DefaultName | src/App.js:57 | `deck_` followed by a numeral that reads back as `n`, so different counts give different names |
| DeckNaming.ManualDeck | src/App.js:51-63 | the specification of `addManualDeck`'s new deck; `AddManualDeck` is proved to append exactly it, and `ManualDeckNameUnpadded` states that its name is non-empty and trimmed |
| DeckNaming.UploadedDeck | src/App.js:72-83 | the specification of one uploaded file's deck; `UploadDeck` is proved equal to it, and `UploadedDecksSelectedAndNamed` states that it is selected and named |
| DeckNaming.ManualName | src/App.js:53-58 | the manual naming rule; `ManualNameUnpadded` and `AddManualDeck` state its properties |
| DeckNaming.UploadName | src/App.js:74-79 | the upload naming rule; `UploadNameNonEmpty` and `UploadNameIgnoresParsedName` state its properties |
| DeckNaming.StripExtension | src/App.js:78 | `replace(/\.[^/.]+$/, '')`; `StripExtensionMeaning` states exactly what it removes |
| DeckNaming.ResolvedColour | src/App.js:59-61 | the colour fallback; `ResolveColour` is proved equal to it and `ResolvedColourBlank` states when it is blank |
| DeckNaming.AcceptableNamesNonEmpty | src/App.js:56 | parsed card keys are non-empty, so the first card always names the deck |
| DeckNaming.UploadDeck | src/App.js:72-83 | one file's deck: its name rule (parsed name, first card, file name without extension, `deck_<now>`), the resolved colour, the parsed cards, selected |
| DeckNaming.HandleFileChange | src/App.js:68-86 | the existing decks are kept and one deck per file follows, in file order |
| DeckNaming.UploadedDecks | src/App.js:71-84 | file `i` becomes the upload deck of that file, with its own id and clock reading |
| DeckNaming.UploadedDecksSelectedAndNamed | src/App.js:74-83 | every uploaded deck is selected and has a non-empty name |
| DeckNaming.UploadNameNonEmpty | src/App.js:74-79 | the upload name is never empty |
| DeckNaming.UploadNameIgnoresParsedName | src/App.js:73-74 | the parser keeps the fallback `deck`, so the parsed-name rule never applies |
| DeckNaming.StripExtensionMeaning | src/App.js:78 | stripping removes exactly a `.` followed by non-`.`/non-`/` characters up to the end, and removes nothing only when there is no such suffix |
| DeckNaming.LastDot | src/App.js:78 | the position found is the last `.` |
| Collection.RemoveDeck | src/App.js:91-93 | the result holds exactly the decks without that id |
| Collection.RemoveDistributes | src/App.js:92 | removal works element by element, so the survivors keep their order |
| Collection.RemoveAbsent | src/App.js:92 | removing an id no deck has changes nothing |
| Collection.RemoveIdempotent | src/App.js:92 | removing twice is removing once |
| Collection.ToggleSelected | src/App.js:94 | decks with the id flip `selected`; nothing else changes |
| Collection.ToggleTwice | src/App.js:94 | toggling twice restores the collection |
| Collection.RenameDeck | src/App.js:95-101 | a cancelled or blank answer changes nothing; otherwise decks with the id take the trimmed answer as their name, and nothing else changes |
| Collection.RenameMatching | src/App.js:100 | only the name of decks with the id changes |
| Collection.RenamedNameUnpadded | src/App.js:99-100 | a renamed deck's name is non-empty and trimmed |
| Collection.RemoveAfterRename | src/App.js:91-101 | removing after renaming is the same as removing |
| Collection.NormaliseRecord | src/App.js:134 | the record's own id wins over the fresh one; only an explicit `false` deselects; the other fields are copied |
| Collection.NormaliseRecords | src/App.js:134 | each record is normalised with its own fresh id |
| Collection.ImportDecks | src/App.js:130-136 | a document with a `decks` array keeps the existing decks and appends exactly its normalised records; any other document changes nothing |
| Collection.ExportRecords | src/App.js:119 | the export carries each deck's id and selection |
| Collection.ExportImportRoundTrip | src/App.js:118-135 | importing an export appends exactly the exported decks, ids and selection included |
| Collection.ReimportDuplicatesIds | src/App.js:134 | re-importing a collection's export duplicates each id, and removing one id then removes both copies |
| Aggregation.AddDeckCards | src/App.js:105 | the inner loop over `Object.entries(d.cards)` computes the fold of `map[card][d.name] = info` over the deck's cards |
| Aggregation.Aggregate | src/App.js:103-107 | the outer loop computes the fold of the inner loop over the selected decks, in order |
| Aggregation.AggregateKeys | src/App.js:103-107 | a card is indexed exactly when some selected deck holds it |
| Aggregation.AggregateCell | src/App.js:103-107 | the entry of a card under a deck name is the quantity and colour from the last selected deck of that name holding the card |
| Aggregation.AggregateUniqueKeys | src/App.js:105 | every card is indexed once |
| Aggregation.AggregateCellUniqueKeys | src/App.js:105 | every cell holds each deck name once |
| Aggregation.AggregateSelectedOnly | src/App.js:105 | unselected decks contribute nothing |
| Aggregation.AddCardsLookup | src/App.js:105 | the inner loop changes only the deck's cards' cells, each gaining the deck's entry with the card's last quantity |
| Aggregation.AddCardsKeys | src/App.js:105 | the inner loop indexes the old cards plus the deck's own |
| Aggregation.AddCardsUniqueKeys | src/App.js:105 | the inner loop keeps card names unique |
| Aggregation.LastValueMembership | src/App.js:105 | a card has a last quantity exactly when it is one of the deck's keys |
| Aggregation.HeldSnoc | src/App.js:105 | some selected deck holds a card exactly when an earlier one does or the last one does |
| Aggregation.SelectedDecks | src/App.js:105 | the selected decks are exactly those with `selected` set |
| Aggregation.CellOf | src/App.js:105 | `map[card] \|\| {}`; `AggregateCell`, `CellKeys` and `CellOrder` state what the cells hold |
| Aggregation.Enter | src/App.js:105 | `map[card][d.name] = info`; `AddCardsLookup` states its effect |
| Aggregation.AddDeck | src/App.js:105 | one outer-loop step: an unselected deck is skipped, a selected one's cards are entered; `AggregateSelectedOnly`, `AggregateKeys` and `AggregateCell` state what the steps build |
| Aggregation.AddCards | src/App.js:105 | the inner loop as a fold; `AddDeckCards` is proved equal to it |
| Aggregation.AggregateDecks | src/App.js:103-107 | the memo as a fold; `Aggregate` is proved equal to it, and the `Aggregate...` lemmas state what it holds |
| Aggregation.Holders | src/App.js:105 | for each deck in order, its name when it is selected and holds the card |
| Aggregation.CellKeys | src/App.js:105 | the deck names of a cell are those of the selected decks holding the card, in deck order of first appearance, each once |
| Aggregation.CellOrder | src/App.js:105 | a cell lists exactly the names of selected decks holding the card, ordered by the first such deck of each name |
| CardView.CardList | src/App.js:109-116 | the list is a permutation of the index entries whose card names contain the search text, ignoring case, and it is sorted by the chosen mode |
| CardView.SortEntries | src/App.js:112-114 | the in-place sort leaves the array sorted by the mode's comparator and a permutation of its old contents |
| CardView.InsertNext | src/App.js:112-114 | one insertion step extends the sorted prefix by one element and permutes the array |
| CardView.InsertedSorted | src/App.js:112-114 | once the moved element's left neighbour precedes it, the prefix is sorted |
| CardView.StartInserting | src/App.js:112-114 | a sorted prefix extended by one element starts an insertion |
| CardView.SwapKeepsInserting | src/App.js:112-114 | swapping the moved element past a neighbour that does not precede it keeps the insertion invariant |
| CardView.FilterEntries | src/App.js:110-111 | an entry is kept exactly when its lower-cased name contains the lower-cased search text, with its multiplicity, and no other entry is kept |
| CardView.FilterEmptySearch | src/App.js:110-111 | an empty search keeps every entry, in order |
| CardView.FilterIgnoresSearchCase | src/App.js:110 | the filter ignores the case of the search text |
| CardView.ModeOf | src/App.js:112-114 | `alpha` and `decks` select their orders; every other value selects shared order |
| CardView.PrecedesTotal | src/App.js:112-114 | every mode's comparator is total |
| CardView.PrecedesTransitive | src/App.js:112-114 | every mode's comparator is transitive |
| CardView.SharedPutsWiderFirst | src/App.js:114 | in shared order, a card in more decks comes strictly first |
| CardView.Matches | src/App.js:110-111 | the filter test; `FilterEntries` and `FilterIgnoresSearchCase` state its use |
| CardView.DeckNames | src/App.js:113 | the `decks` sort key, `Object.keys(cell).join(',')`; `DeckNamesOfCell` states what it is for the index |
| CardView.DeckNamesOfCell | src/App.js:105-113 | the `decks` sort key of an indexed card is the names of the selected decks holding it, in the order of the first such deck of each name, joined by `,` |
| CardView.Precedes | src/App.js:112-114 | the three comparators; `PrecedesTotal`, `PrecedesTransitive` and `SharedPutsWiderFirst` state their properties |

## Left out

- React state, JSX and rendering are not modelled. Each handler is
  modelled as a function or method from the old collection to the new one.
  The resets of the input fields (src/App.js:65 and src/App.js:87-88) are not modelled.
- File reading, `JSON.parse`, `JSON.stringify`, `Blob` download,
  `window.prompt` and `alert` are not modelled:
  - an uploaded file is its name and its text;
  - a prompt answer is an `Option` (`None` is a cancelled prompt);
  - an import is an already-parsed document, and a `JSON.parse` failure is
    the same as `NoDecksArray`.
- Imported records whose `name`, `cards` or `colour` are missing or of
  another type are not modelled. Only `id` and `selected` may be missing.
- `makeId()` and `Date.now()` are parameters (`id`, `ids`, `now`, `clock`),
  because they are clocks and randomness.
- Case mapping is ASCII only, and `localeCompare` is plain lexicographic
  order on code points. Unicode case tables and collation are outside the
  model.
- `Object.keys` lists integer-like keys (such as `"10"`) first, in numeric
  order. The model keeps pure insertion order.
- Card names that clash with the object prototype are not modelled:
  - `__proto__` as a key;
  - names inherited from `Object.prototype`, such as `constructor` or
    `toString`. For these, `deck.cards[name] || 0` is a function, so
    `(deck.cards[name] || 0) + maybeNum` concatenates strings instead of
    adding. The model adds.
- `parseInt` is modelled on integers. Rounding of very long numerals and
  `-0` are not modelled.
- `CardView.SortEntries`: proves sorted and permutation only, not the
  stability of `Array.prototype.sort`. The algorithm is an insertion sort,
  not the engine's own sort.
- `CardView.CardList`: the order among entries the comparator ties is
  whatever `SortEntries` leaves. That order is not proved to be the input
  order, since stability is not proved.
- `Text.Words`: its contract states only that tokens are non-empty;
  `WordsOfJoin` states the tokens of a line of words. It matches
  `split(/\s+/)` on the trimmed, non-empty lines the parser gives it, not on
  arbitrary strings.
- `DeckNaming.UploadedDecks`: `Promise.all` over the files is a function,
  because the file reads are asynchronous I/O.
- The `manualName || ''`, `parsed.cards || {}`, `d.cards || {}` and
  `search || ''` guards are not modelled. They only matter for `undefined`
  values, which the model's types rule out.
- Collection statistics (totals over the selected decks, a minimum cube
  size, coverage) and a recolour operation are not modelled. `src/App.js`
  has no code for either.
- Concrete inputs with a lemma of their own:
  - `3 Island (foil)` (`IslandFoilLine`);
  - `2 Mountain` followed by `1 Mountain` (`RepeatedCardAddsUp`);
  - the lines `Sideboard`, `4`, `Lightning Bolt` and `3 (foil)`, which
    name no card (`LoneWordsIgnored`, `BoltWithoutQuantity`,
    `FoilWithoutName`).

  Other inputs are instances of the general lemmas and are not worked out
  one by one.
