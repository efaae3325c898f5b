/**
 * `parseDeckText` (src/App.js:23-49): decklist text to `{ name, cards, colour }`.
 *
 * The text is split into lines after CRLF and CR are turned into LF. Each
 * trimmed, non-blank line is either a colour directive (`COLOUR = value` or
 * `COLOR = value`, any letter case, value cut at the first `#`) or a card line
 * (`<integer> <name...>`, the name cut at the first `(`); quantities of a
 * repeated name are added up. Every other line is ignored.
 */
module DeckParser {
  import opened Wrappers
  import opened Text
  import opened Assoc
  import opened Decks

  /** The object `parseDeckText` returns; the caller assigns the id and `selected`. */
  datatype ParsedDeck = ParsedDeck(name: string, cards: CardMap, colour: string)

  function EmptyDeck(name: string): ParsedDeck {
    ParsedDeck(name, [], "")
  }

  // ---------------------------------------------------------------- lines

  /** `s.replace(/\r\n/g, '\n')`. */
  function ReplaceCrLf(s: string): (r: string)
    ensures |r| <= |s|
    decreases |s|
  {
    if |s| >= 2 && s[0] == '\r' && s[1] == '\n' then "\n" + ReplaceCrLf(s[2..])
    else if s == [] then []
    else [s[0]] + ReplaceCrLf(s[1..])
  }

  /** `s.replace(/\r/g, '\n')`. */
  function ReplaceCr(s: string): (r: string)
    ensures |r| == |s|
    ensures forall i :: 0 <= i < |s| ==> r[i] == if s[i] == '\r' then '\n' else s[i]
  {
    seq(|s|, i requires 0 <= i < |s| => if s[i] == '\r' then '\n' else s[i])
  }

  function NormaliseNewlines(text: string): (r: string)
    ensures '\r' !in r
  {
    ReplaceCr(ReplaceCrLf(text))
  }

  /**
   * The raw lines of the text, as the loop of `parseDeckText` visits them:
   * at least one, none holding an LF, and joined by LF they give back the
   * text with its line breaks normalised.
   */
  function Lines(text: string): (ls: seq<string>)
    ensures ls != [] && forall l :: l in ls ==> '\n' !in l
    ensures JoinWith(ls, "\n") == NormaliseNewlines(text)
  {
    SplitOn(NormaliseNewlines(text), '\n')
  }

  // ---------------------------------------------------------------- one line

  /** The line's upper-cased form starts with `COLOUR` or `COLOR`, and the line contains `=`. */
  predicate IsDirective(line: string) {
    var up := Upper(line);
    (StartsWith(up, "COLOUR") || StartsWith(up, "COLOR")) && '=' in line
  }

  /** `line.split('=')[1] || ''`, cut at the first `#` and trimmed. */
  function DirectiveValue(line: string): (v: string)
    ensures '#' !in v && '=' !in v
  {
    var parts := SplitOn(line, '=');
    var rhs := if |parts| > 1 then parts[1] else "";
    assert '=' !in rhs by { assert |parts| > 1 ==> parts[1] in parts; }
    Trim(CutAt(rhs, '#'))
  }

  /**
   * The name the tokens after the quantity give: joined by single spaces and
   * cut at the first `(` (and then trimmed).
   */
  function CardName(words: seq<string>): (name: string)
    ensures '(' !in name
  {
    var joined := JoinWith(words, " ");
    match IndexOf(joined, '(')
    case Some(p) => Trim(joined[..p])
    case None => joined
  }

  /**
   * The card a trimmed, non-directive line names, with its quantity: the first
   * token must start with an integer (as `parseInt` reads it) and at least one
   * more token must follow; an empty name names nothing.
   */
  function CardLine(line: string): (r: Option<(string, int)>)
    ensures r.Some? ==> r.value.0 != "" && '(' !in r.value.0
  {
    var tokens := Words(line);
    if |tokens| <= 1 then None
    else match ParseIntPrefix(tokens[0])
      case None => None
      case Some(quantity) =>
        var name := CardName(tokens[1..]);
        if name == "" then None else Some((name, quantity))
  }

  /** `cards[name] = (cards[name] || 0) + quantity`. */
  function Accumulate(cards: CardMap, name: string, quantity: int): CardMap {
    Put(cards, name, Lookup(cards, name).GetOr(0) + quantity)
  }

  /** The card and quantity a raw line contributes, if any: a non-empty name without `(`, never from a directive. */
  function LineCard(raw: string): (r: Option<(string, int)>)
    ensures r.Some? ==> r.value.0 != "" && '(' !in r.value.0 && !IsDirective(Trim(raw))
  {
    var line := Trim(raw);
    if line == "" || IsDirective(line) then None else CardLine(line)
  }

  /** The colour a raw line sets, if any: a non-empty value without `#` or `=`, only from a directive. */
  function LineColour(raw: string): (r: Option<string>)
    ensures r.Some? ==> r.value != "" && '#' !in r.value && '=' !in r.value && IsDirective(Trim(raw))
  {
    var line := Trim(raw);
    if line != "" && IsDirective(line) && DirectiveValue(line) != "" then Some(DirectiveValue(line))
    else None
  }

  /** The card map after a line that contributes `entry` (if any). */
  function CardsAfter(cards: CardMap, entry: Option<(string, int)>): CardMap {
    match entry
    case Some((name, quantity)) => Accumulate(cards, name, quantity)
    case None => cards
  }

  /** The quantity `entry` adds to `card`. */
  function Contribution(entry: Option<(string, int)>, card: string): int {
    match entry
    case Some((name, quantity)) => if name == card then quantity else 0
    case None => 0
  }

  /**
   * One iteration of the loop of `parseDeckText`: a card line adds its
   * quantity, a directive with a value sets the colour, any other line
   * (blank, unrecognised, or a directive without a value) changes nothing.
   */
  function ApplyLine(deck: ParsedDeck, raw: string): ParsedDeck {
    match LineCard(raw)
    case Some((name, quantity)) => deck.(cards := Accumulate(deck.cards, name, quantity))
    case None =>
      match LineColour(raw)
      case Some(c) => deck.(colour := c)
      case None => deck
  }

  /** The loop over `lines`, starting from `init`. */
  function ParseLines(lines: seq<string>, init: ParsedDeck): ParsedDeck
    decreases |lines|
  {
    if lines == [] then init
    else ApplyLine(ParseLines(lines[..|lines| - 1], init), lines[|lines| - 1])
  }

  /** What the loop of `parseDeckText(text, fallbackName)` computes over the lines of `text`. */
  function ParseDeck(text: string, fallbackName: string): ParsedDeck {
    ParseLines(Lines(text), EmptyDeck(fallbackName))
  }

  // ---------------------------------------------------------------- the parser

  /** The body of the loop of `parseDeckText`, applied to one raw line. */
  method ParseLine(deck: ParsedDeck, raw: string) returns (next: ParsedDeck)
    ensures next == ApplyLine(deck, raw)
  {
    next := deck;
    var line := Trim(raw);
    if line == "" {
      return;
    }
    if IsDirective(line) {
      assert LineCard(raw) == None;
      var val := DirectiveValue(line);
      if val != "" {
        next := next.(colour := val);
      }
      return;
    }
    assert LineColour(raw) == None;
    var entry := CardLine(line);
    if entry.Some? {
      next := next.(cards := Accumulate(next.cards, entry.value.0, entry.value.1));
    }
  }

  /**
   * `parseDeckText`: an empty text gives the empty deck at once; otherwise the
   * lines are visited in order, updating `deck.cards` and `deck.colour`.
   */
  method ParseDeckText(text: string, fallbackName: string) returns (deck: ParsedDeck)
    ensures deck == ParseDeck(text, fallbackName)
    ensures text == "" ==> deck == EmptyDeck(fallbackName)
  {
    deck := EmptyDeck(fallbackName);
    if text == "" {
      EmptyTextShortcut(fallbackName);
      return;
    }
    var lines := Lines(text);
    var i := 0;
    while i < |lines|
      invariant 0 <= i <= |lines|
      invariant deck == ParseLines(lines[..i], EmptyDeck(fallbackName))
    {
      ParseLinesStep(lines, i, EmptyDeck(fallbackName));
      deck := ParseLine(deck, lines[i]);
      i := i + 1;
    }
    assert lines[..i] == lines;
  }

  /** One more line of the loop. */
  lemma ParseLinesStep(lines: seq<string>, i: nat, init: ParsedDeck)
    requires i < |lines|
    ensures ParseLines(lines[..i + 1], init) == ApplyLine(ParseLines(lines[..i], init), lines[i])
  {
    assert lines[..i + 1][..i] == lines[..i];
  }

  // ---------------------------------------------------------------- reference definitions

  /** `entry` is a card line for `card`. */
  predicate Names(entry: Option<(string, int)>, card: string) {
    entry.Some? && entry.value.0 == card
  }

  /** What each line contributes to the cards, line by line. */
  function LineEntries(lines: seq<string>): (es: seq<Option<(string, int)>>)
    ensures |es| == |lines|
    decreases |lines|
  {
    if lines == [] then []
    else LineEntries(lines[..|lines| - 1]) + [LineCard(lines[|lines| - 1])]
  }

  /** The cards after the contributions `entries`, one after the other. */
  function CardsFold(entries: seq<Option<(string, int)>>, cards: CardMap): CardMap
    decreases |entries|
  {
    if entries == [] then cards
    else CardsAfter(CardsFold(entries[..|entries| - 1], cards), entries[|entries| - 1])
  }

  /** Some contribution is for `card`. */
  ghost predicate Mentioned(entries: seq<Option<(string, int)>>, card: string) {
    exists i :: 0 <= i < |entries| && Names(entries[i], card)
  }

  /** The sum of the quantities contributed for `card`. */
  ghost function Total(entries: seq<Option<(string, int)>>, card: string): int
    decreases |entries|
  {
    if entries == [] then 0
    else Total(entries[..|entries| - 1], card) + Contribution(entries[|entries| - 1], card)
  }

  /** The value of the last colour directive with a non-empty value, else `initial`. */
  ghost function LastColour(lines: seq<string>, initial: string): string
    decreases |lines|
  {
    if lines == [] then initial
    else match LineColour(lines[|lines| - 1])
      case Some(c) => c
      case None => LastColour(lines[..|lines| - 1], initial)
  }

  // ---------------------------------------------------------------- properties

  /** A line never both names a card and sets the colour. */
  lemma LineKinds(raw: string)
    ensures LineCard(raw).Some? ==> LineColour(raw).None?
    ensures Blank(raw) ==> LineCard(raw).None? && LineColour(raw).None?
  {
    TrimEmptyIffBlank(raw);
  }

  lemma {:induction false} MentionedSnoc(entries: seq<Option<(string, int)>>, e: Option<(string, int)>, card: string)
    ensures Mentioned(entries + [e], card) <==> Mentioned(entries, card) || Names(e, card)
  {
    var all := entries + [e];
    if Mentioned(entries, card) {
      var i :| 0 <= i < |entries| && Names(entries[i], card);
      assert all[i] == entries[i];
    }
    if Names(e, card) {
      assert all[|entries|] == e;
    }
    if Mentioned(all, card) {
      var i :| 0 <= i < |all| && Names(all[i], card);
      if i < |entries| {
        assert all[i] == entries[i];
      }
    }
  }

  /** A line's effect on the cards is `CardsAfter` of what it contributes. */
  lemma ApplyLineCards(deck: ParsedDeck, raw: string)
    ensures ApplyLine(deck, raw).cards == CardsAfter(deck.cards, LineCard(raw))
  {
  }

  /** The loop's card map is the fold of the lines' contributions. */
  lemma {:induction false} ParseLinesCards(lines: seq<string>, init: ParsedDeck)
    ensures ParseLines(lines, init).cards == CardsFold(LineEntries(lines), init.cards)
    decreases |lines|
  {
    if lines != [] {
      var prefix, raw := lines[..|lines| - 1], lines[|lines| - 1];
      ParseLinesCards(prefix, init);
      ApplyLineCards(ParseLines(prefix, init), raw);
      var es := LineEntries(lines);
      assert es[..|es| - 1] == LineEntries(prefix);
    }
  }

  /** One step of the running total. */
  lemma CardsAfterLookup(cards: CardMap, entry: Option<(string, int)>, base: Option<int>,
                         seen: bool, total: int, card: string)
    requires Lookup(cards, card) == if seen then Some(base.GetOr(0) + total) else base
    requires !seen ==> total == 0
    ensures Lookup(CardsAfter(cards, entry), card) ==
      if seen || Names(entry, card) then Some(base.GetOr(0) + total + Contribution(entry, card))
      else base
  {
    match entry
    case Some((name, quantity)) =>
      var v := Lookup(cards, name).GetOr(0) + quantity;
      LookupPut(cards, name, v, card);
      if name == card {
        assert v == base.GetOr(0) + total + quantity;
      }
    case None =>
  }

  /**
   * The quantity stored under `card` is the initial one plus the sum of the
   * contributed quantities for it; a card nothing contributes to keeps its
   * initial entry (or stays absent).
   */
  lemma {:induction false} FoldTotals(entries: seq<Option<(string, int)>>, cards: CardMap, card: string)
    ensures Lookup(CardsFold(entries, cards), card) ==
      if Mentioned(entries, card) then Some(Lookup(cards, card).GetOr(0) + Total(entries, card))
      else Lookup(cards, card)
    ensures !Mentioned(entries, card) ==> Total(entries, card) == 0
    decreases |entries|
  {
    if entries != [] {
      var prefix, e := entries[..|entries| - 1], entries[|entries| - 1];
      assert entries == prefix + [e];
      FoldTotals(prefix, cards, card);
      MentionedSnoc(prefix, e, card);
      CardsAfterLookup(CardsFold(prefix, cards), e, Lookup(cards, card), Mentioned(prefix, card),
                       Total(prefix, card), card);
    }
  }

  /** The name is never changed; the colour is the last non-empty directive value. */
  lemma {:induction false} ParsedNameAndColour(lines: seq<string>, init: ParsedDeck)
    ensures ParseLines(lines, init).name == init.name
    ensures ParseLines(lines, init).colour == LastColour(lines, init.colour)
    decreases |lines|
  {
    if lines != [] {
      var prefix, raw := lines[..|lines| - 1], lines[|lines| - 1];
      ParsedNameAndColour(prefix, init);
    }
  }

  /** A contribution, if any, is for a non-empty name without `(`. */
  predicate Acceptable(entry: Option<(string, int)>) {
    entry.Some? ==> entry.value.0 != "" && '(' !in entry.value.0
  }

  lemma {:induction false} LineEntriesAcceptable(lines: seq<string>)
    ensures forall i :: 0 <= i < |lines| ==> Acceptable(LineEntries(lines)[i])
    decreases |lines|
  {
    if lines != [] {
      var prefix := lines[..|lines| - 1];
      LineEntriesAcceptable(prefix);
      var es := LineEntries(lines);
      assert es[..|lines| - 1] == LineEntries(prefix);
      assert es[|lines| - 1] == LineCard(lines[|lines| - 1]);
    }
  }

  lemma {:induction false} FoldUniqueKeys(entries: seq<Option<(string, int)>>, cards: CardMap)
    requires UniqueKeys(cards)
    ensures UniqueKeys(CardsFold(entries, cards))
    decreases |entries|
  {
    if entries != [] {
      var prefix, e := entries[..|entries| - 1], entries[|entries| - 1];
      FoldUniqueKeys(prefix, cards);
      var c := CardsFold(prefix, cards);
      match e
      case Some((name, quantity)) =>
        PutKeepsUniqueKeys(c, name, Lookup(c, name).GetOr(0) + quantity);
      case None =>
    }
  }

  /** Every card name is non-empty and free of `(`. */
  ghost predicate AcceptableKeys(cards: CardMap) {
    forall k :: k in Keys(cards) ==> k != "" && '(' !in k
  }

  /** Card names are unique, non-empty and never contain `(`. */
  ghost predicate WellFormedCards(cards: CardMap) {
    UniqueKeys(cards) && AcceptableKeys(cards)
  }

  lemma {:induction false} FoldAcceptableKeys(entries: seq<Option<(string, int)>>, cards: CardMap)
    requires AcceptableKeys(cards)
    requires forall i :: 0 <= i < |entries| ==> Acceptable(entries[i])
    ensures AcceptableKeys(CardsFold(entries, cards))
    decreases |entries|
  {
    if entries != [] {
      var prefix, e := entries[..|entries| - 1], entries[|entries| - 1];
      assert forall i :: 0 <= i < |prefix| ==> prefix[i] == entries[i];
      FoldAcceptableKeys(prefix, cards);
      var c := CardsFold(prefix, cards);
      assert Acceptable(entries[|entries| - 1]);
      if e.Some? {
        var v := Lookup(c, e.value.0).GetOr(0) + e.value.1;
        forall k | k in Keys(Put(c, e.value.0, v))
          ensures k != "" && '(' !in k
        {
          PutKeysMembership(c, e.value.0, v, k);
        }
      }
    }
  }

  /** The `if (!text) return deck` shortcut agrees with running the loop on `""`. */
  lemma EmptyTextShortcut(fallbackName: string)
    ensures ParseDeck("", fallbackName) == EmptyDeck(fallbackName)
  {
    var lines := Lines("");
    assert lines == [""];
    assert lines[..0] == [];
  }

  /** `parseDeckText` keeps the fallback name; the colour is the last non-empty directive value. */
  lemma ParseDeckNameAndColour(text: string, fallbackName: string)
    ensures ParseDeck(text, fallbackName).name == fallbackName
    ensures ParseDeck(text, fallbackName).colour == LastColour(Lines(text), "")
  {
    ParsedNameAndColour(Lines(text), EmptyDeck(fallbackName));
  }

  /** The cards of the result are the lines' contributions folded into an empty map. */
  lemma ParseDeckCards(text: string, fallbackName: string)
    ensures ParseDeck(text, fallbackName).cards == CardsFold(LineEntries(Lines(text)), [])
  {
    ParseLinesCards(Lines(text), EmptyDeck(fallbackName));
  }

  /**
   * Starting from no cards, a card is present exactly when some contribution
   * is for it, and its quantity is the sum of those contributions.
   */
  lemma CardsFoldFromEmpty(entries: seq<Option<(string, int)>>, card: string)
    ensures Lookup(CardsFold(entries, []), card) ==
      if Mentioned(entries, card) then Some(Total(entries, card)) else None
  {
    FoldTotals(entries, [], card);
  }

  /** The card names of the result are unique, non-empty and free of `(`. */
  lemma ParseDeckWellFormed(text: string, fallbackName: string)
    ensures WellFormedCards(ParseDeck(text, fallbackName).cards)
  {
    ParseLinesCards(Lines(text), EmptyDeck(fallbackName));
    LineEntriesAcceptable(Lines(text));
    FoldUniqueKeys(LineEntries(Lines(text)), []);
    FoldAcceptableKeys(LineEntries(Lines(text)), []);
  }

  lemma {:induction false} ParseLinesConcat(a: seq<string>, b: seq<string>, init: ParsedDeck)
    ensures ParseLines(a + b, init) == ParseLines(b, ParseLines(a, init))
    decreases |b|
  {
    if b != [] {
      var prefix := b[..|b| - 1];
      assert (a + b)[..|a + b| - 1] == a + prefix;
      ParseLinesConcat(a, prefix, init);
    } else {
      assert a + b == a;
    }
  }

  /** Inserting a blank or whitespace-only line anywhere changes nothing. */
  lemma BlankLineIgnored(a: seq<string>, blank: string, b: seq<string>, init: ParsedDeck)
    requires Blank(blank)
    ensures ParseLines(a + [blank] + b, init) == ParseLines(a + b, init)
  {
    TrimEmptyIffBlank(blank);
    ParseLinesConcat(a + [blank], b, init);
    ParseLinesConcat(a, [blank], init);
    assert ([] + [blank]) == [blank];
    ParseLinesConcat(a, b, init);
  }

  /** Turning CRLF and CR into LF first changes nothing: only the line breaks matter. */
  lemma LineEndingsIrrelevant(text: string, fallbackName: string)
    ensures ParseDeck(NormaliseNewlines(text), fallbackName) == ParseDeck(text, fallbackName)
  {
    var n := NormaliseNewlines(text);
    ReplaceCrLfWithoutCr(n);
    assert ReplaceCr(n) == n;
  }

  lemma {:induction false} ReplaceCrLfWithoutCr(s: string)
    requires '\r' !in s
    ensures ReplaceCrLf(s) == s
    decreases |s|
  {
    if s != [] {
      assert s[0] in s;
      assert forall i :: 0 <= i < |s| - 1 ==> s[1..][i] == s[i + 1];
      ReplaceCrLfWithoutCr(s[1..]);
      assert s == [s[0]] + s[1..];
    }
  }

  /**
   * A directive whose value starts with `#` sets nothing: the value is cut at
   * that `#` and so is empty. A hexadecimal colour such as
   * `COLOUR=#ff0000 # primary` is therefore ignored.
   */
  lemma HashValueIgnored(deck: ParsedDeck, raw: string, key: string, value: string)
    requires Trim(raw) == key + "=" + value
    requires '=' !in key && value != [] && value[0] == '#'
    requires IsDirective(Trim(raw))
    ensures ApplyLine(deck, raw) == deck
  {
    SplitOnFirst(key, '=', value);
    SplitOnFirstPiece(value, '=');
    var rhs := SplitOn(value, '=')[0];
    assert IndexOf(rhs, '#') == Some(0);
    assert DirectiveValue(Trim(raw)) == "";
  }

  // ---------------------------------------------------------------- what one line reads as

  /** `up.startsWith(p)` needs the first characters to agree. */
  lemma StartsWithHead(s: string, prefix: string)
    requires prefix != [] && StartsWith(s, prefix)
    ensures s != [] && s[0] == prefix[0]
  {
    assert s[..|prefix|][0] == s[0];
  }

  /** A line starting with a sign or a digit is no colour directive. */
  lemma NotDirectiveOfNumber(line: string)
    requires line != [] && (line[0] == '-' || line[0] == '+' || IsDigit(line[0]))
    ensures !IsDirective(line)
  {
    var up := Upper(line);
    assert up[0] == line[0];
    if StartsWith(up, "COLOUR") {
      StartsWithHead(up, "COLOUR");
    }
    if StartsWith(up, "COLOR") {
      StartsWithHead(up, "COLOR");
    }
  }

  /** A token without whitespace that `parseInt` reads starts with a sign or a digit. */
  lemma NumberTokenHead(q: string)
    requires IsWord(q) && ParseIntPrefix(q).Some?
    ensures q[0] == '-' || q[0] == '+' || IsDigit(q[0])
  {
  }

  /** `CardLine` on a line whose tokens are a quantity and then the words of a non-empty name. */
  lemma CardLineOfWords(line: string, q: string, rest: seq<string>, v: int)
    requires Words(line) == [q] + rest && rest != []
    requires ParseIntPrefix(q) == Some(v) && CardName(rest) != ""
    ensures CardLine(line) == Some((CardName(rest), v))
  {
    assert Words(line)[1..] == rest;
  }

  /** The line's tokens, when it is the quantity and words joined by whitespace runs. */
  lemma CardLineWords(q: string, ws: seq<string>, sep: string)
    requires IsWord(q) && forall i :: 0 <= i < |ws| ==> IsWord(ws[i])
    requires sep != [] && Blank(sep)
    ensures Words(JoinWith([q] + ws, sep)) == [q] + ws
  {
    var all := [q] + ws;
    assert forall i :: 1 <= i < |all| ==> all[i] == ws[i - 1];
    WordsOfJoin(all, sep);
  }

  /** Words without `(` joined by single spaces: a non-empty name without `(`. */
  lemma PlainName(ws: seq<string>)
    requires ws != [] && forall i :: 0 <= i < |ws| ==> IsWord(ws[i]) && '(' !in ws[i]
    ensures JoinWith(ws, " ") != "" && '(' !in JoinWith(ws, " ")
    ensures !IsSpace(JoinWith(ws, " ")[0]) && !IsSpace(JoinWith(ws, " ")[|JoinWith(ws, " ")| - 1])
  {
    JoinWithout(ws, " ", '(');
    JoinEnds(ws, " ");
  }

  /** Words without `(` name the card they spell, joined by single spaces. */
  lemma CardNamePlain(ws: seq<string>)
    requires ws != [] && forall i :: 0 <= i < |ws| ==> IsWord(ws[i]) && '(' !in ws[i]
    ensures CardName(ws) == JoinWith(ws, " ") && CardName(ws) != ""
  {
    PlainName(ws);
  }

  /** Joining the name's words and then words from a `(` on: the `(` comes right after the name and a space. */
  lemma CutName(ws: seq<string>, tail: seq<string>)
    requires ws != [] && forall i :: 0 <= i < |ws| ==> IsWord(ws[i]) && '(' !in ws[i]
    requires tail != [] && forall i :: 0 <= i < |tail| ==> IsWord(tail[i])
    requires tail[0] != [] && tail[0][0] == '('
    ensures IndexOf(JoinWith(ws + tail, " "), '(') == Some(|JoinWith(ws, " ")| + 1)
    ensures Trim(JoinWith(ws + tail, " ")[..|JoinWith(ws, " ")| + 1]) == JoinWith(ws, " ")
    ensures JoinWith(ws, " ") != ""
  {
    PlainName(ws);
    var name := JoinWith(ws, " ");
    var joined := JoinWith(ws + tail, " ");
    JoinAppend(ws, tail, " ");
    JoinEnds(tail, " ");
    var p := |name| + 1;
    assert joined == name + " " + JoinWith(tail, " ");
    assert joined[..p] == name + " ";
    IndexOfAt(joined, '(', p);
    TrimOfPaddedEnd(name, " ");
  }

  /** The words from the first one that starts with `(` on do not count towards the name. */
  lemma CardNameCut(ws: seq<string>, tail: seq<string>)
    requires ws != [] && forall i :: 0 <= i < |ws| ==> IsWord(ws[i]) && '(' !in ws[i]
    requires tail != [] && forall i :: 0 <= i < |tail| ==> IsWord(tail[i])
    requires tail[0] != [] && tail[0][0] == '('
    ensures CardName(ws + tail) == JoinWith(ws, " ") && CardName(ws + tail) != ""
  {
    CutName(ws, tail);
  }

  lemma AllWords(ws: seq<string>, tail: seq<string>)
    requires forall i :: 0 <= i < |ws| ==> IsWord(ws[i])
    requires forall i :: 0 <= i < |tail| ==> IsWord(tail[i])
    ensures forall i :: 0 <= i < |ws + tail| ==> IsWord((ws + tail)[i])
  {
  }

  /** The line's tokens, when the name's words are followed by further words. */
  lemma CardLineWordsTail(q: string, ws: seq<string>, tail: seq<string>, sep: string)
    requires IsWord(q) && forall i :: 0 <= i < |ws| ==> IsWord(ws[i])
    requires forall i :: 0 <= i < |tail| ==> IsWord(tail[i])
    requires sep != [] && Blank(sep)
    ensures Words(JoinWith([q] + ws + tail, sep)) == [q] + (ws + tail)
  {
    ConsAppend(q, ws, tail);
    assert Words(JoinWith([q] + (ws + tail), sep)) == [q] + (ws + tail) by {
      AllWords(ws, tail);
      CardLineWords(q, ws + tail, sep);
    }
  }

  lemma ConsAppend(x: string, a: seq<string>, b: seq<string>)
    ensures [x] + a + b == [x] + (a + b)
  {
  }

  /**
   * A card line names its card: a quantity token, then words without `(`
   * separated by any runs of whitespace, give the card named by those words
   * joined with single spaces, with the quantity `parseInt` reads.
   */
  lemma CardLineReads(q: string, ws: seq<string>, sep: string, v: int)
    requires IsWord(q) && ParseIntPrefix(q) == Some(v)
    requires ws != [] && forall i :: 0 <= i < |ws| ==> IsWord(ws[i]) && '(' !in ws[i]
    requires sep != [] && Blank(sep)
    ensures CardLine(JoinWith([q] + ws, sep)) == Some((JoinWith(ws, " "), v))
  {
    CardLineWords(q, ws, sep);
    CardNamePlain(ws);
    CardLineOfWords(JoinWith([q] + ws, sep), q, ws, v);
  }

  /**
   * Words from the first one that starts with `(` on are dropped from the
   * name: `3 Island (foil)` names `Island`.
   */
  lemma CardLineCutsAtParenthesis(q: string, ws: seq<string>, tail: seq<string>, sep: string, v: int)
    requires IsWord(q) && ParseIntPrefix(q) == Some(v)
    requires ws != [] && forall i :: 0 <= i < |ws| ==> IsWord(ws[i]) && '(' !in ws[i]
    requires tail != [] && forall i :: 0 <= i < |tail| ==> IsWord(tail[i])
    requires tail[0] != [] && tail[0][0] == '('
    requires sep != [] && Blank(sep)
    ensures CardLine(JoinWith([q] + ws + tail, sep)) == Some((JoinWith(ws, " "), v))
  {
    CardLineWordsTail(q, ws, tail, sep);
    CardNameCut(ws, tail);
    CardLineOfWords(JoinWith([q] + ws + tail, sep), q, ws + tail, v);
  }

  /** A card line adds the quantity it reads to the card it names. */
  lemma CardLineAdds(deck: ParsedDeck, raw: string, q: string, ws: seq<string>, sep: string, v: int)
    requires Trim(raw) == JoinWith([q] + ws, sep)
    requires IsWord(q) && ParseIntPrefix(q) == Some(v)
    requires ws != [] && forall i :: 0 <= i < |ws| ==> IsWord(ws[i]) && '(' !in ws[i]
    requires sep != [] && Blank(sep)
    ensures ApplyLine(deck, raw) == deck.(cards := Accumulate(deck.cards, JoinWith(ws, " "), v))
  {
    CardLineReads(q, ws, sep, v);
    JoinCons(q, ws, sep);
    assert Trim(raw)[0] == q[0];
    NumberTokenHead(q);
    NotDirectiveOfNumber(Trim(raw));
  }

  /**
   * Both directions of the card-line rule, on words separated by runs of
   * whitespace: the line names a card exactly when it has a second word,
   * `parseInt` reads a number from the first, and the words after it give a
   * name that is non-empty before any `(`; that card and number are then
   * what it reads.
   */
  lemma CardLineOfJoin(ws: seq<string>, sep: string)
    requires forall i :: 0 <= i < |ws| ==> IsWord(ws[i])
    requires sep != [] && Blank(sep)
    ensures CardLine(JoinWith(ws, sep)).Some? <==>
      |ws| > 1 && ParseIntPrefix(ws[0]).Some? && CardName(ws[1..]) != ""
    ensures CardLine(JoinWith(ws, sep)).Some? ==>
      CardLine(JoinWith(ws, sep)).value == (CardName(ws[1..]), ParseIntPrefix(ws[0]).value)
  {
    WordsOfJoin(ws, sep);
  }

  /** A line of one token names no card, number or not (`4`, `Sideboard`). */
  lemma OneTokenLine(w: string)
    requires IsWord(w)
    ensures CardLine(w) == None
  {
    WordsSingle(w);
  }

  /** A line whose first word `parseInt` cannot read names no card (`Lightning Bolt`). */
  lemma UnnumberedLine(ws: seq<string>, sep: string)
    requires ws != [] && forall i :: 0 <= i < |ws| ==> IsWord(ws[i])
    requires ParseIntPrefix(ws[0]).None?
    requires sep != [] && Blank(sep)
    ensures CardLine(JoinWith(ws, sep)) == None
  {
    WordsOfJoin(ws, sep);
  }

  /** `parseInt` reads no number from a word that starts neither with a digit nor with a sign and a digit. */
  lemma UnnumberedWord(w: string)
    requires IsWord(w)
    ensures ParseIntPrefix(w).None? <==>
      !IsDigit(w[0]) && !((w[0] == '-' || w[0] == '+') && |w| > 1 && IsDigit(w[1]))
  {
    assert TrimStart(w) == w;
  }

  /** A quantity followed only by words from a `(` on names no card: the name before the `(` is empty (`3 (foil)`). */
  lemma NoteOnlyLine(q: string, note: seq<string>, sep: string)
    requires IsWord(q) && note != [] && forall i :: 0 <= i < |note| ==> IsWord(note[i])
    requires note[0] != [] && note[0][0] == '('
    requires sep != [] && Blank(sep)
    ensures CardLine(JoinWith([q] + note, sep)) == None
  {
    CardLineWords(q, note, sep);
    var joined := JoinWith(note, " ");
    assert joined[0] == '(' by {
      JoinEnds(note, " ");
    }
    IndexOfAt(joined, '(', 0);
    assert CardName(note) == "";
    assert (Words(JoinWith([q] + note, sep)))[1..] == note;
  }

  /**
   * The other direction at the level of the deck: a non-blank line that is
   * not a colour directive and not of the card form changes nothing.
   */
  lemma IgnoredLine(deck: ParsedDeck, raw: string)
    requires var t := Trim(raw);
      t != "" && !IsDirective(t) &&
      (|Words(t)| <= 1 || ParseIntPrefix(Words(t)[0]).None? || CardName(Words(t)[1..]) == "")
    ensures ApplyLine(deck, raw) == deck
  {
    assert LineCard(raw) == None;
    assert LineColour(raw) == None;
  }

  /** The same on whitespace-separated words: a line whose words are not of the card form leaves the deck alone. */
  lemma UnreadLineIgnored(deck: ParsedDeck, raw: string, ws: seq<string>, sep: string)
    requires Trim(raw) == JoinWith(ws, sep) && !IsDirective(Trim(raw))
    requires ws != [] && forall i :: 0 <= i < |ws| ==> IsWord(ws[i])
    requires sep != [] && Blank(sep)
    requires !(|ws| > 1 && ParseIntPrefix(ws[0]).Some? && CardName(ws[1..]) != "")
    ensures ApplyLine(deck, raw) == deck
  {
    CardLineOfJoin(ws, sep);
    assert LineCard(raw) == None;
    assert LineColour(raw) == None;
  }

  /**
   * The value of a directive is the text after its first `=` (up to any
   * further `=`), cut at the first `#` and trimmed.
   */
  lemma DirectiveValueReads(key: string, v: string, rest: string)
    requires '=' !in key && '=' !in v
    requires rest == [] || rest[0] == '='
    ensures DirectiveValue(key + "=" + v + rest) == Trim(CutAt(v, '#'))
  {
    assert key + "=" + v + rest == key + ['='] + (v + rest);
    SplitOnFirst(key, '=', v + rest);
    SplitOnFirstPieceIs(v, '=', rest);
  }

  /**
   * A colour line `key=v`, possibly followed by further `=` pieces, adds no
   * card; it sets the colour to `v` cut at its first `#` and trimmed, and
   * leaves the deck alone when that is empty.
   */
  lemma DirectiveLineSetsColour(deck: ParsedDeck, raw: string, key: string, v: string, rest: string)
    requires Trim(raw) == key + "=" + v + rest
    requires IsDirective(Trim(raw)) && '=' !in key && '=' !in v
    requires rest == [] || rest[0] == '='
    ensures LineCard(raw) == None
    ensures ApplyLine(deck, raw) ==
      if Trim(CutAt(v, '#')) == "" then deck else deck.(colour := Trim(CutAt(v, '#')))
  {
    DirectiveValueReads(key, v, rest);
  }

  // ---------------------------------------------------------------- line breaks

  /** A piece of text with no line break in it. */
  predicate SingleLine(l: string) {
    '\r' !in l && '\n' !in l
  }

  lemma {:induction false} ReplaceCrLfPassesThrough(a: string, b: string)
    requires '\r' !in a
    ensures ReplaceCrLf(a + b) == a + ReplaceCrLf(b)
    decreases |a|
  {
    if a == [] {
      assert a + b == b;
    } else {
      assert a[0] in a;
      assert (a + b)[0] == a[0] && (a + b)[1..] == a[1..] + b;
      assert forall i :: 0 <= i < |a| - 1 ==> a[1..][i] == a[i + 1];
      ReplaceCrLfPassesThrough(a[1..], b);
      assert [a[0]] + (a[1..] + ReplaceCrLf(b)) == a + ReplaceCrLf(b);
    }
  }

  lemma {:induction false} ReplaceCrLfOfJoin(ls: seq<string>)
    requires forall i :: 0 <= i < |ls| ==> SingleLine(ls[i])
    ensures ReplaceCrLf(JoinWith(ls, "\r\n")) == JoinWith(ls, "\n")
    decreases |ls|
  {
    if |ls| == 1 {
      ReplaceCrLfWithoutCr(ls[0]);
    } else if |ls| > 1 {
      var rest := ls[1..];
      var r := JoinWith(rest, "\r\n");
      JoinCons(ls[0], rest, "\r\n");
      JoinCons(ls[0], rest, "\n");
      ReplaceCrLfOfJoin(rest);
      assert ls[0] + "\r\n" + r == ls[0] + ("\r\n" + r);
      ReplaceCrLfPassesThrough(ls[0], "\r\n" + r);
      assert ("\r\n" + r)[2..] == r;
    }
  }

  lemma {:induction false} ReplaceCrLfWithoutLf(s: string)
    requires '\n' !in s
    ensures ReplaceCrLf(s) == s
    decreases |s|
  {
    if s != [] {
      assert s[0] in s;
      assert |s| >= 2 ==> s[1] in s;
      assert forall i :: 0 <= i < |s| - 1 ==> s[1..][i] == s[i + 1];
      ReplaceCrLfWithoutLf(s[1..]);
      assert s == [s[0]] + s[1..];
    }
  }

  lemma ReplaceCrOfLine(l: string)
    requires '\r' !in l
    ensures ReplaceCr(l) == l
  {
  }

  lemma ReplaceCrConcat(a: string, b: string)
    ensures ReplaceCr(a + b) == ReplaceCr(a) + ReplaceCr(b)
  {
  }

  lemma {:induction false} ReplaceCrOfJoin(ls: seq<string>)
    requires forall i :: 0 <= i < |ls| ==> SingleLine(ls[i])
    ensures ReplaceCr(JoinWith(ls, "\r")) == JoinWith(ls, "\n")
    decreases |ls|
  {
    if |ls| == 1 {
      ReplaceCrOfLine(ls[0]);
    } else if |ls| > 1 {
      var rest := ls[1..];
      var r := JoinWith(rest, "\r");
      JoinCons(ls[0], rest, "\r");
      JoinCons(ls[0], rest, "\n");
      ReplaceCrOfJoin(rest);
      ReplaceCrConcat(ls[0] + "\r", r);
      ReplaceCrConcat(ls[0], "\r");
      ReplaceCrOfLine(ls[0]);
      assert ReplaceCr("\r") == "\n";
    }
  }

  /** Text whose line breaks are LF splits into exactly its lines. */
  lemma LinesOfLf(ls: seq<string>)
    requires ls != [] && forall i :: 0 <= i < |ls| ==> SingleLine(ls[i])
    ensures Lines(JoinWith(ls, "\n")) == ls
  {
    var t := JoinWith(ls, "\n");
    JoinWithout(ls, "\n", '\r');
    ReplaceCrLfWithoutCr(t);
    ReplaceCrOfLine(t);
    SplitOnJoin(ls, '\n');
  }

  /** Text whose line breaks are CRLF splits into exactly its lines. */
  lemma LinesOfCrLf(ls: seq<string>)
    requires ls != [] && forall i :: 0 <= i < |ls| ==> SingleLine(ls[i])
    ensures Lines(JoinWith(ls, "\r\n")) == ls
  {
    var t := JoinWith(ls, "\n");
    ReplaceCrLfOfJoin(ls);
    JoinWithout(ls, "\n", '\r');
    ReplaceCrOfLine(t);
    SplitOnJoin(ls, '\n');
  }

  /** Text whose line breaks are CR splits into exactly its lines. */
  lemma LinesOfCr(ls: seq<string>)
    requires ls != [] && forall i :: 0 <= i < |ls| ==> SingleLine(ls[i])
    ensures Lines(JoinWith(ls, "\r")) == ls
  {
    var t := JoinWith(ls, "\r");
    JoinWithout(ls, "\r", '\n');
    ReplaceCrLfWithoutLf(t);
    ReplaceCrOfJoin(ls);
    SplitOnJoin(ls, '\n');
  }

  /** CRLF and CR line breaks parse exactly as LF line breaks do. */
  lemma LineBreaksAgree(ls: seq<string>, fallbackName: string)
    requires forall i :: 0 <= i < |ls| ==> SingleLine(ls[i])
    ensures ParseDeck(JoinWith(ls, "\r\n"), fallbackName) == ParseDeck(JoinWith(ls, "\n"), fallbackName)
    ensures ParseDeck(JoinWith(ls, "\r"), fallbackName) == ParseDeck(JoinWith(ls, "\n"), fallbackName)
  {
    if ls != [] {
      LinesOfLf(ls);
      LinesOfCrLf(ls);
      LinesOfCr(ls);
    }
  }

  // ---------------------------------------------------------------- insertion order

  /** The card each contribution writes, if any. */
  function CardNames(entries: seq<Option<(string, int)>>): (ns: seq<Option<string>>)
    ensures |ns| == |entries|
    decreases |entries|
  {
    if entries == [] then []
    else
      var last := entries[|entries| - 1];
      CardNames(entries[..|entries| - 1]) + [if last.Some? then Some(last.value.0) else None]
  }

  /** The card each line of `text` mentions, line by line. */
  function Mentions(text: string): seq<Option<string>> {
    CardNames(LineEntries(Lines(text)))
  }

  /** Folding contributions into no cards keeps the card names in order of their first contribution. */
  lemma {:induction false} CardsFoldKeys(entries: seq<Option<(string, int)>>)
    ensures Keys(CardsFold(entries, [])) == KeyFold(CardNames(entries))
    decreases |entries|
  {
    if entries != [] {
      var prefix := entries[..|entries| - 1];
      var names := CardNames(entries);
      assert names[..|names| - 1] == CardNames(prefix);
      CardsFoldKeys(prefix);
      match entries[|entries| - 1]
      case Some((name, quantity)) =>
        var m := CardsFold(prefix, []);
        PutKeys(m, name, Lookup(m, name).GetOr(0) + quantity);
      case None =>
    }
  }

  /**
   * `Object.keys(deck.cards)` lists each card once, in the order of the line
   * that first mentions it; the cards are exactly the names some line mentions.
   */
  lemma ParseDeckCardOrder(text: string, fallbackName: string)
    ensures Keys(ParseDeck(text, fallbackName).cards) == KeyFold(Mentions(text))
    ensures forall k :: k in Keys(ParseDeck(text, fallbackName).cards) <==> FirstWrite(Mentions(text), k) < |Mentions(text)|
    ensures var cards := ParseDeck(text, fallbackName).cards;
      forall i, j :: 0 <= i < j < |cards| ==> FirstWrite(Mentions(text), cards[i].0) < FirstWrite(Mentions(text), cards[j].0)
  {
    ParseDeckCards(text, fallbackName);
    CardsFoldKeys(LineEntries(Lines(text)));
    KeyFoldOrder(Mentions(text));
  }

  /** The first card of the deck is named by the first line that names any card. */
  lemma ParseDeckFirstCard(text: string, fallbackName: string)
    requires ParseDeck(text, fallbackName).cards != []
    ensures var first := ParseDeck(text, fallbackName).cards[0].0;
      FirstWrite(Mentions(text), first) < |Mentions(text)| &&
      forall i :: 0 <= i < FirstWrite(Mentions(text), first) ==> Mentions(text)[i].None?
  {
    ParseDeckCardOrder(text, fallbackName);
    KeyFoldFirst(Mentions(text));
  }

  // ---------------------------------------------------------------- worked examples

  // The concrete inputs are parameters fixed by `requires`: a string literal
  // inside a goal makes the verifier unfold the parser on it, which is far
  // more costly than the general lemmas these examples instantiate.

  /** A one-digit quantity token reads as its digit. */
  lemma DigitToken(q: string, n: nat)
    requires n < 10 && q == [DigitChar(n)]
    ensures IsWord(q) && ParseIntPrefix(q) == Some(n) && SingleLine(q)
  {
    assert ParseIntPrefix(q) == Some(n) by {
      assert NatToString(n) + [] == q;
      ParseIntReadsNumeral(n, []);
    }
    assert IsDigit(q[0]) && |q| == 1;
  }

  /** A one-word name meets the card-line lemmas' demands on the name's words. */
  lemma OneWordName(w: string)
    requires IsWord(w) && '(' !in w
    ensures forall i :: 0 <= i < |[w]| ==> IsWord([w][i]) && '(' !in [w][i]
    ensures Blank(" ")
  {
  }

  /** A one-word note meets the card-line lemmas' demands on the words after the name. */
  lemma OneWordNote(note: string)
    requires IsWord(note)
    ensures forall i :: 0 <= i < |[note]| ==> IsWord([note][i])
  {
  }

  /** `q w (x` is the card `w` with quantity `parseInt(q)`, for a one-word name and a one-word note. */
  lemma CutLine(q: string, w: string, note: string, v: int)
    requires IsWord(q) && ParseIntPrefix(q) == Some(v)
    requires IsWord(w) && '(' !in w && IsWord(note) && note[0] == '('
    ensures CardLine(JoinWith([q] + [w] + [note], " ")) == Some((w, v))
  {
    OneWordName(w);
    OneWordNote(note);
    CardLineCutsAtParenthesis(q, [w], [note], " ", v);
    assert JoinWith([w], " ") == w;
  }

  /** `3 Island (foil)` is three of `Island`: the printing note is dropped. */
  lemma IslandFoilLine(q: string, w: string, note: string)
    requires q == "3" && w == "Island" && note == "(foil)"
    ensures CardLine(q + " " + w + " " + note) == Some((w, 3))
  {
    assert IsWord(w) && '(' !in w && IsWord(note) && note[0] == '(';
    DigitToken(q, 3);
    CutLine(q, w, note, 3);
    JoinThree(q, w, note);
  }

  /** `Sideboard` and `4` on their own name no card. */
  lemma LoneWordsIgnored(w: string, q: string)
    requires w == "Sideboard" && q == "4"
    ensures CardLine(w) == None && CardLine(q) == None
  {
    assert IsWord(w) && IsWord(q);
    OneTokenLine(w);
    OneTokenLine(q);
  }

  /** `Lightning Bolt` without a quantity names no card. */
  lemma BoltWithoutQuantity(a: string, b: string)
    requires a == "Lightning" && b == "Bolt"
    ensures CardLine(a + " " + b) == None
  {
    assert IsWord(a) && IsWord(b) && a[0] == 'L';
    UnnumberedWord(a);
    assert forall i :: 0 <= i < |[a, b]| ==> IsWord([a, b][i]);
    UnnumberedLine([a, b], " ");
    JoinTwo(a, b, " ");
  }

  /** `3 (foil)` names no card: nothing comes before the note. */
  lemma FoilWithoutName(q: string, note: string)
    requires q == "3" && note == "(foil)"
    ensures CardLine(q + " " + note) == None
  {
    assert IsWord(q) && IsWord(note) && note[0] == '(';
    OneWordNote(note);
    NoteOnlyLine(q, [note], " ");
    assert [q] + [note] == [q, note];
    JoinTwo(q, note, " ");
  }

  /** Two words joined by a space have no whitespace at either end. */
  lemma TrimOfWordPair(q: string, w: string)
    requires IsWord(q) && IsWord(w)
    ensures Trim(JoinWith([q, w], " ")) == JoinWith([q, w], " ")
  {
    var raw := JoinWith([q, w], " ");
    JoinTwo(q, w, " ");
    assert raw[0] == q[0] && raw[|raw| - 1] == w[|w| - 1];
    TrimOfUnpadded(raw);
  }

  /** A line `q w` for a quantity token `q` and a one-word name `w` without `(` adds that quantity of `w`. */
  lemma NumberedLineAdds(deck: ParsedDeck, q: string, w: string, v: int)
    requires IsWord(q) && ParseIntPrefix(q) == Some(v)
    requires IsWord(w) && '(' !in w
    ensures ApplyLine(deck, JoinWith([q, w], " ")) == deck.(cards := Accumulate(deck.cards, w, v))
  {
    var raw := JoinWith([q, w], " ");
    TrimOfWordPair(q, w);
    assert [q] + [w] == [q, w];
    assert JoinWith([w], " ") == w;
    assert ApplyLine(deck, raw) == deck.(cards := Accumulate(deck.cards, JoinWith([w], " "), v)) by {
      OneWordName(w);
      CardLineAdds(deck, raw, q, [w], " ", v);
    }
  }

  /** Two single lines joined by one LF are two lines. */
  lemma LinesOfTwo(x: string, y: string)
    requires SingleLine(x) && SingleLine(y)
    ensures Lines(x + "\n" + y) == [x, y]
  {
    JoinTwo(x, y, "\n");
    LinesOfLf([x, y]);
  }

  /** The loop over two lines applies the first, then the second. */
  lemma ParseTwoLines(x: string, y: string, init: ParsedDeck)
    ensures ParseLines([x, y], init) == ApplyLine(ApplyLine(init, x), y)
  {
    assert ParseLines([x], init) == ApplyLine(init, x) by {
      assert [x][..0] == [];
    }
    assert [x, y][..1] == [x];
  }

  /** The text `q1 w LF q2 w` parses as its two lines, one after the other. */
  lemma TwoLineText(q1: string, q2: string, w: string, fallbackName: string)
    requires SingleLine(w) && SingleLine(q1) && SingleLine(q2)
    ensures ParseDeck(q1 + " " + w + "\n" + q2 + " " + w, fallbackName) ==
      ApplyLine(ApplyLine(EmptyDeck(fallbackName), JoinWith([q1, w], " ")), JoinWith([q2, w], " "))
  {
    var l0, l1 := JoinWith([q1, w], " "), JoinWith([q2, w], " ");
    assert Lines(q1 + " " + w + "\n" + q2 + " " + w) == [l0, l1] by {
      JoinTwo(q1, w, " ");
      JoinTwo(q2, w, " ");
      assert q1 + " " + w + "\n" + q2 + " " + w == l0 + "\n" + l1;
      assert SingleLine(l0) && SingleLine(l1);
      LinesOfTwo(l0, l1);
    }
    ParseTwoLines(l0, l1, EmptyDeck(fallbackName));
  }

  /** Two lines `q1 w` and `q2 w` naming the same one-word card add their quantities, in that order. */
  lemma SameCardLinesAdd(q1: string, q2: string, w: string, v1: int, v2: int, fallbackName: string)
    requires IsWord(q1) && ParseIntPrefix(q1) == Some(v1)
    requires IsWord(q2) && ParseIntPrefix(q2) == Some(v2)
    requires IsWord(w) && '(' !in w && SingleLine(w) && SingleLine(q1) && SingleLine(q2)
    ensures ParseDeck(q1 + " " + w + "\n" + q2 + " " + w, fallbackName).cards == Accumulate(Accumulate([], w, v1), w, v2)
  {
    var d0 := EmptyDeck(fallbackName);
    var d1 := ApplyLine(d0, JoinWith([q1, w], " "));
    assert d1.cards == Accumulate([], w, v1) by {
      NumberedLineAdds(d0, q1, w, v1);
    }
    assert ApplyLine(d1, JoinWith([q2, w], " ")).cards == Accumulate(d1.cards, w, v2) by {
      NumberedLineAdds(d1, q2, w, v2);
    }
    TwoLineText(q1, q2, w, fallbackName);
  }

  /** Adding to an empty map twice under one name leaves that name with the sum. */
  lemma AccumulateTwice(w: string, a: int, b: int)
    ensures Accumulate(Accumulate([], w, a), w, b) == [(w, a + b)]
  {
  }

  /** `Mountain` is a one-word card name. */
  lemma MountainWord(w: string)
    requires w == "Mountain"
    ensures IsWord(w) && '(' !in w && SingleLine(w)
  {
  }

  /** `2 Mountain` then `1 Mountain` is three of `Mountain`. */
  lemma RepeatedCardAddsUp(two: string, one: string, w: string, fallbackName: string)
    requires two == "2" && one == "1" && w == "Mountain"
    ensures ParseDeck(two + " " + w + "\n" + one + " " + w, fallbackName).cards == [(w, 3)]
  {
    assert two == [DigitChar(2)] && one == [DigitChar(1)];
    DigitToken(two, 2);
    DigitToken(one, 1);
    MountainWord(w);
    SameCardLinesAdd(two, one, w, 2, 1, fallbackName);
    AccumulateTwice(w, 2, 1);
  }
}
