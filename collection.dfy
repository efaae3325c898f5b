/**
 * The deck collection and the updates the app makes to it: `removeDeck`,
 * `toggleSelected`, the update inside `renameDeck`, and the normalisation of
 * imported records (src/App.js:91-101, 118-137). Each update builds a new
 * sequence from the previous one, as the `setDecks(prev => ...)` callbacks do.
 */
module Collection {
  import opened Wrappers
  import opened Text
  import opened Decks

  // ---------------------------------------------------------------- updates

  /** `prev.filter(d => d.id !== id)`. */
  function RemoveDeck(decks: seq<Deck>, id: string): (r: seq<Deck>)
    ensures |r| <= |decks|
    ensures forall d :: d in r <==> d in decks && d.id != id
  {
    if decks == [] then []
    else (if decks[0].id == id then [] else [decks[0]]) + RemoveDeck(decks[1..], id)
  }

  /** `prev.map(d => d.id === id ? {...d, selected: !d.selected} : d)`. */
  function ToggleSelected(decks: seq<Deck>, id: string): (r: seq<Deck>)
    ensures |r| == |decks|
    ensures forall i :: 0 <= i < |r| ==> r[i].selected == (decks[i].selected != (decks[i].id == id))
    ensures forall i :: 0 <= i < |r| ==> r[i].(selected := decks[i].selected) == decks[i]
  {
    seq(|decks|, i requires 0 <= i < |decks| =>
      if decks[i].id == id then decks[i].(selected := !decks[i].selected) else decks[i])
  }

  /**
   * `renameDeck(id)` once the prompt has answered: `None` is a cancelled
   * prompt. Nothing changes unless the answer has a non-whitespace character;
   * then every deck with that id takes the trimmed answer as its name.
   */
  function RenameDeck(decks: seq<Deck>, id: string, answer: Option<string>): (r: seq<Deck>)
    ensures |r| == |decks|
    ensures answer.None? || Blank(answer.value) ==> r == decks
    ensures forall i :: 0 <= i < |r| ==> r[i].(name := decks[i].name) == decks[i]
    ensures forall i :: 0 <= i < |r| ==>
      r[i].name == if decks[i].id == id && answer.Some? && !Blank(answer.value) then Trim(answer.value) else decks[i].name
  {
    // A prompt answer that trims to "" is the same as one that is blank.
    if answer.None? || Blank(answer.value) then decks
    else RenameMatching(decks, id, Trim(answer.value))
  }

  /** `prev.map(x => x.id === id ? {...x, name} : x)`. */
  function RenameMatching(decks: seq<Deck>, id: string, name: string): (r: seq<Deck>)
    ensures |r| == |decks|
    ensures forall i :: 0 <= i < |r| ==> r[i].(name := decks[i].name) == decks[i]
    ensures forall i :: 0 <= i < |r| ==> r[i].name == if decks[i].id == id then name else decks[i].name
  {
    seq(|decks|, i requires 0 <= i < |decks| =>
      if decks[i].id == id then decks[i].(name := name) else decks[i])
  }

  // ---------------------------------------------------------------- import and export

  /**
   * One element of the `decks` array of an imported file, after `JSON.parse`:
   * `id` and `selected` may be missing (`None`).
   */
  datatype ImportedRecord = ImportedRecord(id: Option<string>, name: string, cards: CardMap,
                                           colour: string, selected: Option<bool>)

  /** The parsed import file: either it has a `decks` array, or it does not. */
  datatype ImportDocument = DecksArray(records: seq<ImportedRecord>) | NoDecksArray

  /**
   * `{ id: makeId(), ...d, selected: d.selected !== false }`: the record's own
   * id wins over the fresh one, and only an explicit `false` deselects.
   */
  function NormaliseRecord(record: ImportedRecord, freshId: string): (d: Deck)
    ensures d.id == if record.id.Some? then record.id.value else freshId
    ensures !d.selected <==> record.selected == Some(false)
    ensures d.name == record.name && d.cards == record.cards && d.colour == record.colour
  {
    Deck(record.id.GetOr(freshId), record.name, record.cards, record.colour, record.selected != Some(false))
  }

  function NormaliseRecords(records: seq<ImportedRecord>, freshIds: seq<string>): (ds: seq<Deck>)
    requires |freshIds| == |records|
    ensures |ds| == |records|
    ensures forall i :: 0 <= i < |ds| ==> ds[i] == NormaliseRecord(records[i], freshIds[i])
  {
    seq(|records|, i requires 0 <= i < |records| => NormaliseRecord(records[i], freshIds[i]))
  }

  /**
   * The `onload` handler of `handleImportFile`: a document with a `decks`
   * array appends its normalised records; any other document leaves the
   * collection as it is (the app shows an alert).
   */
  function ImportDecks(decks: seq<Deck>, doc: ImportDocument, freshIds: seq<string>): (r: seq<Deck>)
    requires doc.DecksArray? ==> |freshIds| == |doc.records|
    ensures doc.NoDecksArray? ==> r == decks
    ensures doc.DecksArray? ==> |r| == |decks| + |doc.records| && r[..|decks|] == decks
    ensures doc.DecksArray? ==> r[|decks|..] == NormaliseRecords(doc.records, freshIds)
  {
    match doc
    case DecksArray(records) => decks + NormaliseRecords(records, freshIds)
    case NoDecksArray => decks
  }

  /** The `decks` array `exportCube` writes: every field of every deck. */
  function ExportRecords(decks: seq<Deck>): (rs: seq<ImportedRecord>)
    ensures |rs| == |decks|
    ensures forall i :: 0 <= i < |rs| ==> rs[i].id == Some(decks[i].id) && rs[i].selected == Some(decks[i].selected)
  {
    seq(|decks|, i requires 0 <= i < |decks| =>
      var d := decks[i];
      ImportedRecord(Some(d.id), d.name, d.cards, d.colour, Some(d.selected)))
  }

  // ---------------------------------------------------------------- properties

  /** Removing works element by element: it keeps the order of the survivors. */
  lemma {:induction false} RemoveDistributes(a: seq<Deck>, b: seq<Deck>, id: string)
    ensures RemoveDeck(a + b, id) == RemoveDeck(a, id) + RemoveDeck(b, id)
    decreases |a|
  {
    if a == [] {
      assert a + b == b;
    } else {
      assert (a + b)[1..] == a[1..] + b;
      RemoveDistributes(a[1..], b, id);
    }
  }

  /** When no deck has the id, removing changes nothing. */
  lemma {:induction false} RemoveAbsent(decks: seq<Deck>, id: string)
    requires forall i :: 0 <= i < |decks| ==> decks[i].id != id
    ensures RemoveDeck(decks, id) == decks
    decreases |decks|
  {
    if decks != [] {
      RemoveAbsent(decks[1..], id);
    }
  }

  /** Removing twice is removing once. */
  lemma RemoveIdempotent(decks: seq<Deck>, id: string)
    ensures RemoveDeck(RemoveDeck(decks, id), id) == RemoveDeck(decks, id)
  {
    var r := RemoveDeck(decks, id);
    forall i | 0 <= i < |r|
      ensures r[i].id != id
    {
      assert r[i] in r;
    }
    RemoveAbsent(r, id);
  }

  /** Toggling twice restores the collection. */
  lemma ToggleTwice(decks: seq<Deck>, id: string)
    ensures ToggleSelected(ToggleSelected(decks, id), id) == decks
  {
    var once := ToggleSelected(decks, id);
    var twice := ToggleSelected(once, id);
    forall i | 0 <= i < |decks|
      ensures twice[i] == decks[i]
    {
      assert once[i].id == decks[i].id;
    }
  }

  /** Removing a deck after renaming it is the same as removing it. */
  lemma {:induction false} RemoveAfterRename(decks: seq<Deck>, id: string, answer: Option<string>)
    ensures RemoveDeck(RenameDeck(decks, id, answer), id) == RemoveDeck(decks, id)
  {
    var renamed := RenameDeck(decks, id, answer);
    RemoveAfterRenameAt(decks, renamed, id);
  }

  lemma {:induction false} RemoveAfterRenameAt(decks: seq<Deck>, renamed: seq<Deck>, id: string)
    requires |renamed| == |decks|
    requires forall i :: 0 <= i < |decks| ==> renamed[i].id == decks[i].id
    requires forall i :: 0 <= i < |decks| ==> decks[i].id != id ==> renamed[i] == decks[i]
    ensures RemoveDeck(renamed, id) == RemoveDeck(decks, id)
    decreases |decks|
  {
    if decks != [] {
      RemoveAfterRenameAt(decks[1..], renamed[1..], id);
    }
  }

  /** A renamed deck's name is non-empty and has no surrounding whitespace. */
  lemma RenamedNameUnpadded(decks: seq<Deck>, id: string, answer: Option<string>, i: nat)
    requires i < |decks| && decks[i].id == id && answer.Some? && !Blank(answer.value)
    ensures RenameDeck(decks, id, answer)[i].name != ""
    ensures Trim(RenameDeck(decks, id, answer)[i].name) == RenameDeck(decks, id, answer)[i].name
  {
    var t := Trim(answer.value);
    TrimEmptyIffBlank(answer.value);
    TrimIdempotent(answer.value);
  }

  /** Exporting and importing again gives back the same decks, ids and selection included. */
  lemma ExportImportRoundTrip(decks: seq<Deck>, exported: seq<Deck>, freshIds: seq<string>)
    requires |freshIds| == |exported|
    ensures ImportDecks(decks, DecksArray(ExportRecords(exported)), freshIds) == decks + exported
  {
    var back := NormaliseRecords(ExportRecords(exported), freshIds);
    assert back == exported;
  }

  /**
   * Importing a collection's own export duplicates every id, so a later
   * `removeDeck` of one of them removes both copies.
   */
  lemma ReimportDuplicatesIds(decks: seq<Deck>, freshIds: seq<string>, i: nat)
    requires |freshIds| == |decks| && i < |decks|
    ensures ImportDecks(decks, DecksArray(ExportRecords(decks)), freshIds)[|decks| + i].id == decks[i].id
    ensures RemoveDeck(ImportDecks(decks, DecksArray(ExportRecords(decks)), freshIds), decks[i].id)
      == RemoveDeck(decks, decks[i].id) + RemoveDeck(decks, decks[i].id)
  {
    ExportImportRoundTrip(decks, decks, freshIds);
    RemoveDistributes(decks, decks, decks[i].id);
  }
}
