/**
 * How a new deck gets its name and colour: `addManualDeck` (src/App.js:51-66)
 * and the per-file step of `handleFileChange` (src/App.js:68-89).
 *
 * `makeId()` and `Date.now()` are not modelled; the id and the clock reading
 * are parameters. Reading files is not modelled either: an uploaded file is
 * its name and its text.
 */
module DeckNaming {
  import opened Wrappers
  import opened Text
  import opened Assoc
  import opened Decks
  import opened DeckParser

  // ---------------------------------------------------------------- names

  /** `key.replace(/\s+/g, '_')` for the first card key: there is one exactly when there are cards, and it has no whitespace. */
  function FirstCardName(cards: CardMap): (r: Option<string>)
    ensures r.Some? <==> cards != []
    ensures r.Some? ==> NoSpace(r.value)
  {
    if cards == [] then None else Some(ReplaceSpaceRuns(cards[0].0))
  }

  /** `"deck_" + n`, the generated default name: `deck_` and then a numeral that reads back as `n`. */
  function DefaultName(n: nat): (r: string)
    ensures |r| > 5 && r[..5] == "deck_"
    ensures forall i :: 5 <= i < |r| ==> IsDigit(r[i])
    ensures DigitsValue(r[5..]) == n
  {
    NatToStringValue(n);
    var r := "deck_" + NatToString(n);
    assert r[5..] == NatToString(n);
    r
  }

  /**
   * The name `addManualDeck` gives: the trimmed typed name, else the first
   * card name with whitespace runs as `_`, else `deck_<count + 1>`.
   */
  function ManualName(typedName: string, cards: CardMap, deckCount: nat): string {
    var typed := Trim(typedName);
    if typed != "" then typed
    else match FirstCardName(cards)
      case Some(n) => n
      case None => DefaultName(deckCount + 1)
  }

  /** The position of the last `.` in `s`. */
  function LastDot(s: string): (r: Option<nat>)
    ensures r.None? ==> '.' !in s
    ensures r.Some? ==> r.value < |s| && s[r.value] == '.' && '.' !in s[r.value + 1..]
    decreases |s|
  {
    if s == [] then None
    else if s[|s| - 1] == '.' then Some(|s| - 1)
    else
      var r := LastDot(s[..|s| - 1]);
      assert r.Some? ==> s[r.value + 1..] == s[..|s| - 1][r.value + 1..] + [s[|s| - 1]];
      r
  }

  /** `s` ends in `.` followed by at least one character that is neither `.` nor `/`, from `p` on. */
  predicate ExtensionAt(s: string, p: int) {
    && 0 <= p < |s| - 1
    && s[p] == '.'
    && forall i :: p < i < |s| ==> s[i] != '.' && s[i] != '/'
  }

  /** `fileName.replace(/\.[^/.]+$/, '')`: the file name without its last extension. */
  function StripExtension(s: string): string {
    match LastDot(s)
    case None => s
    case Some(p) => if p + 1 < |s| && '/' !in s[p + 1..] then s[..p] else s
  }

  /**
   * The name the upload path gives: the parsed name unless it is empty or
   * `deck`, else the first card name with whitespace runs as `_` (when that
   * key is non-empty), else the file name without its extension, else
   * `deck_<now>`.
   */
  function UploadName(parsedName: string, cards: CardMap, fileName: string, now: nat): string {
    if parsedName != "" && parsedName != "deck" then parsedName
    else if cards != [] && cards[0].0 != "" then ReplaceSpaceRuns(cards[0].0)
    else if StripExtension(fileName) != "" then StripExtension(fileName)
    else DefaultName(now)
  }

  // ---------------------------------------------------------------- colours

  /**
   * The colour fallback: the parsed colour when it is not blank, else the
   * trimmed free-text colour when that is not blank, else the picker value
   * when it is not empty, else the parsed colour.
   */
  function ResolvedColour(parsed: string, colourText: string, picker: string): string {
    if !Blank(parsed) then parsed
    else if !Blank(colourText) then Trim(colourText)
    else if picker != "" then picker
    else parsed
  }

  /** The three reassignments of `colour` (src/App.js:59-61 and 80-82). */
  method ResolveColour(parsed: string, colourText: string, picker: string) returns (colour: string)
    ensures colour == ResolvedColour(parsed, colourText, picker)
  {
    ColourGuards(parsed, colourText);
    colour := parsed;
    if (colour == "" || Trim(colour) == "") && colourText != "" && Trim(colourText) != "" {
      colour := Trim(colourText);
    }
    assert colour == TextFallback(parsed, colourText);
    if (colour == "" || Trim(colour) == "") && picker != "" {
      colour := picker;
    }
  }

  /** The colour after the free-text fallback alone. */
  function TextFallback(parsed: string, colourText: string): string {
    if Blank(parsed) && !Blank(colourText) then Trim(colourText) else parsed
  }

  /** The source's `!s || !s.trim()` tests blankness, and after the free-text step the colour is blank only when both inputs are. */
  lemma ColourGuards(parsed: string, colourText: string)
    ensures (parsed == "" || Trim(parsed) == "") <==> Blank(parsed)
    ensures (colourText != "" && Trim(colourText) != "") <==> !Blank(colourText)
    ensures var c := TextFallback(parsed, colourText);
      (c == "" || Trim(c) == "") <==> Blank(parsed) && Blank(colourText)
  {
    TrimEmptyIffBlank(parsed);
    TrimEmptyIffBlank(colourText);
    if Blank(parsed) && !Blank(colourText) {
      TrimIdempotent(colourText);
      assert TextFallback(parsed, colourText) == Trim(colourText);
    } else {
      assert TextFallback(parsed, colourText) == parsed;
    }
  }

  // ---------------------------------------------------------------- new decks

  /** The deck `addManualDeck` appends. */
  function ManualDeck(text: string, typedName: string, picker: string, colourText: string,
                      deckCount: nat, id: string): Deck
  {
    var parsed := ParseDeck(text, "deck");
    Deck(id, ManualName(typedName, parsed.cards, deckCount),
         parsed.cards, ResolvedColour(parsed.colour, colourText, picker), true)
  }

  /** `addManualDeck`: parse the pasted text, name and colour the deck, append it. */
  method AddManualDeck(decks: seq<Deck>, text: string, typedName: string, picker: string,
                       colourText: string, id: string) returns (result: seq<Deck>)
    ensures result == decks + [ManualDeck(text, typedName, picker, colourText, |decks|, id)]
  {
    var parsed := ParseDeckText(text, "deck");
    var name := Trim(typedName);
    if name == "" {
      var cardKeys := Keys(parsed.cards);
      if |cardKeys| > 0 {
        name := ReplaceSpaceRuns(cardKeys[0]);
      } else {
        name := "deck_" + NatToString(|decks| + 1);
      }
    }
    var colour := ResolveColour(parsed.colour, colourText, picker);
    result := decks + [Deck(id, name, parsed.cards, colour, true)];
  }

  /** A file chosen for upload: its name and its text. */
  datatype UploadedFile = UploadedFile(fileName: string, text: string)

  /** The deck the upload path makes from one file. */
  function UploadedDeck(file: UploadedFile, picker: string, colourText: string, id: string, now: nat): Deck {
    var parsed := ParseDeck(file.text, "deck");
    Deck(id, UploadName(parsed.name, parsed.cards, file.fileName, now),
         parsed.cards, ResolvedColour(parsed.colour, colourText, picker), true)
  }

  /** The callback `handleFileChange` maps over the files. */
  method UploadDeck(file: UploadedFile, picker: string, colourText: string, id: string, now: nat)
    returns (deck: Deck)
    ensures deck == UploadedDeck(file, picker, colourText, id, now)
  {
    var parsed := ParseDeckText(file.text, "deck");
    var name := if parsed.name != "" && parsed.name != "deck" then parsed.name else "";
    if name == "" {
      var firstCard := if |parsed.cards| > 0 then parsed.cards[0].0 else "";
      if firstCard != "" {
        name := ReplaceSpaceRuns(firstCard);
      } else {
        name := StripExtension(file.fileName);
        if name == "" {
          name := "deck_" + NatToString(now);
        }
      }
    }
    var colour := ResolveColour(parsed.colour, colourText, picker);
    deck := Deck(id, name, parsed.cards, colour, true);
  }

  /**
   * `Promise.all(files.map(...))` in `handleFileChange`: one deck per file, in
   * file order; file `i` gets id `ids[i]` and reads the clock as `clock[i]`.
   */
  function UploadedDecks(files: seq<UploadedFile>, picker: string, colourText: string,
                         ids: seq<string>, clock: seq<nat>): (ds: seq<Deck>)
    requires |ids| == |files| && |clock| == |files|
    ensures |ds| == |files|
    ensures forall i :: 0 <= i < |files| ==> ds[i] == UploadedDeck(files[i], picker, colourText, ids[i], clock[i])
  {
    seq(|files|, i requires 0 <= i < |files| => UploadedDeck(files[i], picker, colourText, ids[i], clock[i]))
  }

  /**
   * `handleFileChange`: no files, no change; otherwise the new decks follow
   * the existing ones, in file order.
   */
  function HandleFileChange(decks: seq<Deck>, files: seq<UploadedFile>, picker: string, colourText: string,
                            ids: seq<string>, clock: seq<nat>): (r: seq<Deck>)
    requires |ids| == |files| && |clock| == |files|
    ensures |r| == |decks| + |files|
    ensures r[..|decks|] == decks
    ensures r[|decks|..] == UploadedDecks(files, picker, colourText, ids, clock)
  {
    if files == [] then decks else decks + UploadedDecks(files, picker, colourText, ids, clock)
  }

  // ---------------------------------------------------------------- properties

  lemma DefaultNameUnpadded(n: nat)
    ensures DefaultName(n) != "" && Trim(DefaultName(n)) == DefaultName(n)
  {
    var s := DefaultName(n);
    assert s[0] == 'd';
    assert s[|s| - 1] == NatToString(n)[|NatToString(n)| - 1];
    TrimOfUnpadded(s);
  }

  /**
   * A manually added deck always gets a non-empty name without surrounding
   * whitespace, provided the card names are non-empty (as every parsed card
   * name is).
   */
  lemma ManualNameUnpadded(typedName: string, cards: CardMap, deckCount: nat)
    requires forall i :: 0 <= i < |cards| ==> cards[i].0 != ""
    ensures ManualName(typedName, cards, deckCount) != ""
    ensures Trim(ManualName(typedName, cards, deckCount)) == ManualName(typedName, cards, deckCount)
  {
    var typed := Trim(typedName);
    if typed != "" {
      TrimOfUnpadded(typed);
    } else if cards != [] {
      var n := ReplaceSpaceRuns(cards[0].0);
      TrimOfUnpadded(n);
    } else {
      DefaultNameUnpadded(deckCount + 1);
    }
  }

  lemma AcceptableNamesNonEmpty(cards: CardMap)
    requires AcceptableKeys(cards)
    ensures forall i :: 0 <= i < |cards| ==> cards[i].0 != ""
  {
    forall i | 0 <= i < |cards|
      ensures cards[i].0 != ""
    {
      assert Keys(cards)[i] == cards[i].0;
      assert cards[i].0 in Keys(cards);
    }
  }

  /** The same for the deck `addManualDeck` builds from pasted text. */
  lemma ManualDeckNameUnpadded(text: string, typedName: string, picker: string, colourText: string,
                               deckCount: nat, id: string)
    ensures ManualDeck(text, typedName, picker, colourText, deckCount, id).name != ""
    ensures Trim(ManualDeck(text, typedName, picker, colourText, deckCount, id).name)
      == ManualDeck(text, typedName, picker, colourText, deckCount, id).name
  {
    var cards := ParseDeck(text, "deck").cards;
    ParseDeckWellFormed(text, "deck");
    AcceptableNamesNonEmpty(cards);
    ManualNameUnpadded(typedName, cards, deckCount);
  }

  /**
   * `StripExtension` removes exactly the match of `/\.[^/.]+$/`: a prefix is
   * kept, what is removed is an extension, and nothing is removed only when
   * there is no extension anywhere.
   */
  lemma StripExtensionMeaning(s: string)
    ensures |StripExtension(s)| <= |s| && StripExtension(s) == s[..|StripExtension(s)|]
    ensures |StripExtension(s)| < |s| ==> ExtensionAt(s, |StripExtension(s)|)
    ensures |StripExtension(s)| == |s| ==> forall p :: 0 <= p < |s| ==> !ExtensionAt(s, p)
  {
    match LastDot(s)
    case None =>
    case Some(p) =>
      if p + 1 < |s| && '/' !in s[p + 1..] {
        forall i | p < i < |s|
          ensures s[i] != '.' && s[i] != '/'
        {
          assert s[i] == s[p + 1..][i - p - 1];
        }
      } else {
        forall q | 0 <= q < |s|
          ensures !ExtensionAt(s, q)
        {
          if q == p && p + 1 < |s| {
            var k :| 0 <= k < |s| - p - 1 && s[p + 1..][k] == '/';
            assert s[p + 1 + k] == '/';
          }
        }
      }
  }

  /** The upload name is never empty, whatever the file. */
  lemma UploadNameNonEmpty(parsedName: string, cards: CardMap, fileName: string, now: nat)
    ensures UploadName(parsedName, cards, fileName, now) != ""
  {
    DefaultNameUnpadded(now);
  }

  /**
   * The parser is called with the fallback name `deck` and keeps it, so the
   * first rule of the upload name never applies: the name comes from the
   * cards, the file name or the clock.
   */
  lemma UploadNameIgnoresParsedName(file: UploadedFile, picker: string, colourText: string, id: string, now: nat)
    ensures UploadedDeck(file, picker, colourText, id, now).name
      == UploadName("", ParseDeck(file.text, "deck").cards, file.fileName, now)
  {
    ParseDeckNameAndColour(file.text, "deck");
  }

  /** The resolved colour is blank only when all three sources are. */
  lemma ResolvedColourBlank(parsed: string, colourText: string, picker: string)
    ensures Blank(ResolvedColour(parsed, colourText, picker)) <==> Blank(parsed) && Blank(colourText) && Blank(picker)
  {
    TrimEmptyIffBlank(colourText);
    if Blank(parsed) && !Blank(colourText) {
      var t := Trim(colourText);
      assert !IsSpace(t[0]);
    }
  }

  /** Every uploaded deck starts selected and has a name. */
  lemma UploadedDecksSelectedAndNamed(decks: seq<Deck>, files: seq<UploadedFile>, picker: string,
                                      colourText: string, ids: seq<string>, clock: seq<nat>, i: nat)
    requires |ids| == |files| && |clock| == |files| && |decks| <= i < |decks| + |files|
    ensures HandleFileChange(decks, files, picker, colourText, ids, clock)[i].selected
    ensures HandleFileChange(decks, files, picker, colourText, ids, clock)[i].name != ""
  {
    var k := i - |decks|;
    var parsed := ParseDeck(files[k].text, "deck");
    UploadNameNonEmpty(parsed.name, parsed.cards, files[k].fileName, clock[k]);
  }
}
