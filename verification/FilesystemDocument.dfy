/** The filesystem isolation file of `common/FilesystemIsolation.hpp` and
    `common/details/FilesystemIsolationDetail.hpp`: its modes, its entries, and the way it is
    written as JSON and read back. */
module FilesystemDocument {
  import opened Outcomes
  import opened IsolationDocument
  import opened DocumentItems

  datatype FilesystemIsolation = Full | WriteCopy | Merge | Whiteout

  datatype EntryKind = File | Directory

  const VERSION := 1

  datatype Entry = Entry(path: string, kind: EntryKind, isolation: FilesystemIsolation)

  datatype Document = Document(version: int, entries: seq<Entry>)

  // ----- tokens

  function IsolationToken(isolation: FilesystemIsolation): string {
    match isolation
    case Full => "full"
    case WriteCopy => "write_copy"
    case Merge => "merge"
    case Whiteout => "whiteout"
  }

  function EntryKindToken(kind: EntryKind): string {
    match kind
    case File => "file"
    case Directory => "directory"
  }

  /** The names of a mode. */
  function IsolationNames(isolation: FilesystemIsolation): (names: seq<string>)
    ensures AreWords(names)
  {
    match isolation
    case Full => ["full"]
    case WriteCopy => ["write_copy", "writecopy"]
    case Merge => ["merge"]
    case Whiteout => ["whiteout"]
  }

  function EntryKindNames(kind: EntryKind): (names: seq<string>)
    ensures AreWords(names)
  {
    match kind
    case File => ["file"]
    case Directory => ["directory", "folder", "dir"]
  }

  /** A token names a mode when it spells one of its names. */
  predicate NamesIsolation(token: string, isolation: FilesystemIsolation) {
    SpellsOneOf(token, IsolationNames(isolation), true)
  }

  predicate NamesEntryKind(token: string, kind: EntryKind) {
    SpellsOneOf(token, EntryKindNames(kind), false)
  }

  function IsolationOf(token: string): Expected<FilesystemIsolation> {
    if NamesIsolation(token, Full) then Ok(Full)
    else if NamesIsolation(token, WriteCopy) then Ok(WriteCopy)
    else if NamesIsolation(token, Merge) then Ok(Merge)
    else if NamesIsolation(token, Whiteout) then Ok(Whiteout)
    else Failed(IsolationTokenUnknown)
  }

  function EntryKindOf(token: string): Expected<EntryKind> {
    if NamesEntryKind(token, File) then Ok(File)
    else if NamesEntryKind(token, Directory) then Ok(Directory)
    else Failed(EntryKindTokenUnknown)
  }

  /** No token names two modes. */
  lemma OneIsolation(token: string, a: FilesystemIsolation, b: FilesystemIsolation)
    requires NamesIsolation(token, a) && NamesIsolation(token, b)
    ensures a == b
  {
    hide SpellsOneOf;
    NormalizedIsName(token, IsolationNames(a), true);
    NormalizedIsName(token, IsolationNames(b), true);
  }

  lemma OneEntryKind(token: string, a: EntryKind, b: EntryKind)
    requires NamesEntryKind(token, a) && NamesEntryKind(token, b)
    ensures a == b
  {
    hide SpellsOneOf;
    NormalizedIsName(token, EntryKindNames(a), false);
    NormalizedIsName(token, EntryKindNames(b), false);
  }

  lemma IsolationOfExactly(token: string, isolation: FilesystemIsolation)
    ensures IsolationOf(token) == Ok(isolation) <==> NamesIsolation(token, isolation)
  {
    hide NamesIsolation;
    if IsolationOf(token).Ok? && NamesIsolation(token, isolation) {
      OneIsolation(token, isolation, IsolationOf(token).value);
    }
  }

  lemma EntryKindOfExactly(token: string, kind: EntryKind)
    ensures EntryKindOf(token) == Ok(kind) <==> NamesEntryKind(token, kind)
  {
    hide NamesEntryKind;
    if EntryKindOf(token).Ok? && NamesEntryKind(token, kind) {
      OneEntryKind(token, kind, EntryKindOf(token).value);
    }
  }

  method ParseIsolationToken(token: string) returns (r: Expected<FilesystemIsolation>)
    ensures forall isolation :: r == Ok(isolation) <==> NamesIsolation(token, isolation)
    ensures r.Failed? ==> r.code == IsolationTokenUnknown
  {
    hide SpellsOneOf;
    forall isolation
      ensures NamesIsolation(token, isolation) <==> NormalizedToken(token, true) in IsolationNames(isolation)
    {
      NormalizedIsName(token, IsolationNames(isolation), true);
    }
    var normalized := NormalizeToken(token, true);
    if normalized == "full" {
      return Ok(Full);
    }
    if normalized == "write_copy" || normalized == "writecopy" {
      return Ok(WriteCopy);
    }
    if normalized == "merge" {
      return Ok(Merge);
    }
    if normalized == "whiteout" {
      return Ok(Whiteout);
    }
    return Failed(IsolationTokenUnknown);
  }

  method ParseEntryKindToken(token: string) returns (r: Expected<EntryKind>)
    ensures forall kind :: r == Ok(kind) <==> NamesEntryKind(token, kind)
    ensures r.Failed? ==> r.code == EntryKindTokenUnknown
  {
    hide SpellsOneOf;
    forall kind
      ensures NamesEntryKind(token, kind) <==> NormalizedToken(token, false) in EntryKindNames(kind)
    {
      NormalizedIsName(token, EntryKindNames(kind), false);
    }
    var normalized := NormalizeToken(token, false);
    if normalized == "file" {
      return Ok(File);
    }
    if normalized == "directory" || normalized == "folder" || normalized == "dir" {
      return Ok(Directory);
    }
    return Failed(EntryKindTokenUnknown);
  }

  predicate IsAllowed(isolation: FilesystemIsolation, kind: EntryKind) {
    kind == Directory || isolation == Full || isolation == Whiteout
  }

  // ----- writing

  function EntryToJson(entry: Entry): Json {
    Object(map["path" := Text(entry.path),
               "kind" := Text(EntryKindToken(entry.kind)),
               "isolation" := Text(IsolationToken(entry.isolation))])
  }

  function ToJson(document: Document): Json {
    Object(map["version" := Integer(document.version), "entries" := Array(ItemsToJson(EntryToJson, document.entries))])
  }

  method WriteDocument(document: Document) returns (json: Json)
    ensures json == ToJson(document)
  {
    var entries := WriteItems(EntryToJson, document.entries);
    json := Object(map["version" := Integer(document.version), "entries" := Array(entries)]);
  }

  // ----- reading

  /** What an entry has to be for the reader to accept it. */
  predicate ValidEntry(entry: Entry) {
    IsAllowed(entry.isolation, entry.kind) && (entry.path == "" ==> entry.kind == Directory)
  }

  /** The members of an object spell an entry. */
  predicate SpellsEntry(json: Json, entry: Entry) {
    && Holds(json, "path", Text(entry.path))
    && HasKey(json, "kind") && json.members["kind"].Text? && NamesEntryKind(json.members["kind"].text, entry.kind)
    && HasKey(json, "isolation") && json.members["isolation"].Text?
    && NamesIsolation(json.members["isolation"].text, entry.isolation)
  }

  function EntryFromJson(json: Json): Expected<Entry> {
    if !json.Object? then Refused()
    else
      match (RequiredText(json, "path"), RequiredText(json, "kind"), RequiredText(json, "isolation"))
      case (Ok(path), Ok(kindToken), Ok(isolationToken)) =>
        (match (EntryKindOf(kindToken), IsolationOf(isolationToken))
         case (Ok(kind), Ok(isolation)) =>
           if path == "" && kind != Directory then Refused()
           else if !IsAllowed(isolation, kind) then Refused()
           else Ok(Entry(path, kind, isolation))
         case _ => Refused())
      case _ => Refused()
  }

  function FromJson(json: Json): Expected<Document> {
    if !json.Object? then Refused()
    else
      match (RequiredInt(json, "version"), OptionalArray(json, "entries"))
      case (Ok(version), Ok(items)) =>
        (match ItemsFromJson(EntryFromJson, items)
         case Ok(entries) => Ok(Document(version, entries))
         case Failed(_) => Refused())
      case _ => Refused()
  }

  /** The text of a file as the JSON layer reads it, absent when it is no JSON text. */
  function Parsed(text: Option<Json>): Expected<Document> {
    if text.None? || !text.value.Object? then Refused()
    else
      match RequireVersion(text.value, "version", VERSION)
      case Failed(code) => Failed(code)
      case Ok(_) => FromJson(text.value)
  }

  /** An entry is read exactly from the objects that spell it, and it is valid. */
  lemma EntryReadExactly(json: Json, entry: Entry)
    ensures EntryFromJson(json) == Ok(entry) <==> ValidEntry(entry) && SpellsEntry(json, entry)
    ensures EntryFromJson(json).Failed? ==> EntryFromJson(json) == Refused()
  {
    hide IsolationOf, EntryKindOf, NamesIsolation, NamesEntryKind;
    if RequiredText(json, "kind").Ok? {
      EntryKindOfExactly(RequiredText(json, "kind").value, entry.kind);
    }
    if RequiredText(json, "isolation").Ok? {
      IsolationOfExactly(RequiredText(json, "isolation").value, entry.isolation);
    }
  }

  method ReadEntry(json: Json) returns (r: Expected<Entry>)
    ensures forall entry :: r == Ok(entry) <==> ValidEntry(entry) && SpellsEntry(json, entry)
    ensures r.Failed? ==> r == Refused()
  {
    hide NamesIsolation, NamesEntryKind;
    if !json.Object? {
      return Refused();
    }
    var path := RequiredText(json, "path");
    if path.Failed? {
      return Refused();
    }
    var kindToken := RequiredText(json, "kind");
    if kindToken.Failed? {
      return Refused();
    }
    var kind := ParseEntryKindToken(kindToken.value);
    if kind.Failed? {
      return Refused();
    }
    if path.value == "" && kind.value != Directory {
      return Refused();
    }
    var isolationToken := RequiredText(json, "isolation");
    if isolationToken.Failed? {
      return Refused();
    }
    var isolation := ParseIsolationToken(isolationToken.value);
    if isolation.Failed? {
      return Refused();
    }
    if !IsAllowed(isolation.value, kind.value) {
      return Refused();
    }
    return Ok(Entry(path.value, kind.value, isolation.value));
  }

  method ReadDocument(json: Json) returns (r: Expected<Document>)
    ensures r == FromJson(json)
  {
    if !json.Object? {
      return Refused();
    }
    var version := RequiredInt(json, "version");
    if version.Failed? {
      return Refused();
    }
    var items := OptionalArray(json, "entries");
    if items.Failed? {
      return Refused();
    }
    var entries := ReadItems(EntryFromJson, items.value);
    if entries.Failed? {
      return Refused();
    }
    return Ok(Document(version.value, entries.value));
  }

  method ParseDocument(text: Option<Json>) returns (r: Expected<Document>)
    ensures r == Parsed(text)
  {
    if text.None? || !text.value.Object? {
      return Refused();
    }
    var version := FindMember(text.value, "version");
    if version.None? || !version.value.Integer? {
      return Refused();
    }
    if ToInt32(version.value.number) != VERSION {
      return Failed(IsolationDocumentUnsupportedVersion);
    }
    r := ReadDocument(text.value);
  }

  // ----- round trips

  lemma TokensRoundTrip(isolation: FilesystemIsolation, kind: EntryKind)
    ensures IsolationOf(IsolationToken(isolation)) == Ok(isolation)
    ensures EntryKindOf(EntryKindToken(kind)) == Ok(kind)
  {
    NamesItself(IsolationToken(isolation), IsolationNames(isolation), true);
    NamesItself(EntryKindToken(kind), EntryKindNames(kind), false);
    hide SpellsOneOf;
    IsolationOfExactly(IsolationToken(isolation), isolation);
    EntryKindOfExactly(EntryKindToken(kind), kind);
  }

  lemma EntryRoundTrip(entry: Entry)
    ensures EntryFromJson(EntryToJson(entry)) == if ValidEntry(entry) then Ok(entry) else Refused()
  {
    hide IsolationOf, IsolationToken, EntryKindOf, EntryKindToken;
    TokensRoundTrip(entry.isolation, entry.kind);
  }

  /** A written document is read back as it was exactly when each of its entries is valid. */
  lemma DocumentRoundTrip(document: Document)
    requires -0x8000_0000 <= document.version < 0x8000_0000
    ensures FromJson(ToJson(document)) == if AllValid(ValidEntry, document.entries) then Ok(document) else Refused()
  {
    hide EntryToJson, EntryFromJson;
    forall e: Entry
      ensures EntryFromJson(EntryToJson(e)) == if ValidEntry(e) then Ok(e) else Refused()
    {
      EntryRoundTrip(e);
    }
    ItemsRoundTrip(EntryToJson, EntryFromJson, ValidEntry, document.entries);
  }

  /** Every document the reader accepts is written to a document the reader accepts as equal. */
  lemma ParsedRoundTrip(text: Option<Json>)
    requires Parsed(text).Ok?
    ensures var document := Parsed(text).value;
            && document.version == VERSION && AllValid(ValidEntry, document.entries)
            && Parsed(Some(ToJson(document))) == Ok(document)
  {
    var document := Parsed(text).value;
    ItemsReadAreValid(EntryFromJson, ValidEntry, OptionalArray(text.value, "entries").value);
    DocumentRoundTrip(document);
  }

  // ----- what is accepted, member by member

  /** A folder may have any mode; a file has a path, and is full or a whiteout. */
  lemma ValidExactly(entry: Entry)
    ensures ValidEntry(entry) <==>
            entry.kind == Directory || (entry.path != "" && entry.isolation in {Full, Whiteout})
  {
  }

  /** The words of the modes and kinds. */
  lemma Words()
    ensures IsolationToken(Full) == "full" && IsolationToken(WriteCopy) == "write_copy"
    ensures IsolationToken(Merge) == "merge" && IsolationToken(Whiteout) == "whiteout"
    ensures EntryKindToken(File) == "file" && EntryKindToken(Directory) == "directory"
    ensures IsolationNames(Full) == ["full"] && IsolationNames(WriteCopy) == ["write_copy", "writecopy"]
    ensures IsolationNames(Merge) == ["merge"] && IsolationNames(Whiteout) == ["whiteout"]
    ensures EntryKindNames(File) == ["file"] && EntryKindNames(Directory) == ["directory", "folder", "dir"]
  {
  }

  /** Some spellings. */
  lemma Spellings()
    ensures IsolationOf("Write-Copy") == IsolationOf("write copy") == IsolationOf("WRITECOPY") == Ok(WriteCopy)
    ensures EntryKindOf("Dir") == Ok(Directory)
  {
    hide IsolationOf, EntryKindOf;
    SpellsIsolation("Write-Copy", WriteCopy, 0);
    SpellsIsolation("write copy", WriteCopy, 0);
    SpellsIsolation("WRITECOPY", WriteCopy, 1);
    SpellsKind("Dir", Directory, 2);
  }

  lemma SpellsIsolation(token: string, isolation: FilesystemIsolation, i: nat)
    requires i < |IsolationNames(isolation)| && Spells(token, IsolationNames(isolation)[i], true)
    ensures IsolationOf(token) == Ok(isolation)
  {
    IsolationOfExactly(token, isolation);
  }

  lemma SpellsKind(token: string, kind: EntryKind, i: nat)
    requires i < |EntryKindNames(kind)| && Spells(token, EntryKindNames(kind)[i], false)
    ensures EntryKindOf(token) == Ok(kind)
  {
    EntryKindOfExactly(token, kind);
  }

  /** A list of items spells some entries. */
  predicate SpellEntries(items: seq<Json>, entries: seq<Entry>) {
    |items| == |entries| && forall i :: 0 <= i < |items| ==> ValidEntry(entries[i]) && SpellsEntry(items[i], entries[i])
  }

  lemma EntriesExactly(items: seq<Json>, entries: seq<Entry>)
    ensures ItemsFromJson(EntryFromJson, items) == Ok(entries) <==> SpellEntries(items, entries)
  {
    hide EntryFromJson, SpellsEntry, ValidEntry;
    ItemsReadExactly(EntryFromJson, items, entries);
    if |items| == |entries| {
      forall i | 0 <= i < |items|
        ensures EntryFromJson(items[i]) == Ok(entries[i]) <==> ValidEntry(entries[i]) && SpellsEntry(items[i], entries[i])
      {
        EntryReadExactly(items[i], entries[i]);
      }
    }
  }

  /** A document is read exactly from an object that holds its version and spells its entries, in order
      and without one more; an object without the list has none. */
  lemma DocumentReadExactly(json: Json, document: Document)
    ensures FromJson(json) == Ok(document) <==>
            HoldsInt(json, "version", document.version)
            && exists items :: HoldsList(json, "entries", true, items) && SpellEntries(items, document.entries)
    ensures FromJson(json).Failed? ==> FromJson(json).code == IsolationDocumentInvalid
  {
    hide SpellEntries, ItemsFromJson, HoldsList, HoldsInt;
    IntExactly(json, "version", document.version);
    HoldsIsObject(json, "version", document.version);
    forall items
      ensures OptionalArray(json, "entries") == Ok(items) <==> HoldsList(json, "entries", true, items)
      ensures ItemsFromJson(EntryFromJson, items) == Ok(document.entries) <==> SpellEntries(items, document.entries)
    {
      ListExactly(json, "entries", items);
      EntriesExactly(items, document.entries);
    }
  }

  lemma HoldsIsObject(json: Json, key: string, i: int)
    ensures HoldsInt(json, key, i) ==> json.Object?
  {
  }

  /** The text of a file is accepted exactly when it is an object whose version is one and which a
      document is read from. Another whole number for the version has a code of its own. */
  lemma ParsedExactly(text: Option<Json>, document: Document)
    ensures Parsed(text) == Ok(document) <==>
            text.Some? && HoldsInt(text.value, "version", 1) && FromJson(text.value) == Ok(document)
    ensures Parsed(text) == Failed(IsolationDocumentUnsupportedVersion) <==>
            text.Some? && HasKey(text.value, "version") && text.value.members["version"].Integer?
            && !HoldsInt(text.value, "version", 1)
    ensures Parsed(text).Failed? ==> Parsed(text).code in {IsolationDocumentInvalid, IsolationDocumentUnsupportedVersion}
  {
    hide FromJson, HoldsInt, ToInt32;
    if text.Some? {
      IntExactly(text.value, "version", 1);
      HoldsIsObject(text.value, "version", 1);
      if FromJson(text.value).Failed? {
        DocumentReadExactly(text.value, document);
      }
    }
  }
}
