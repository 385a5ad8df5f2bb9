/** The environment isolation file and the environment state file of
    `common/EnvironmentIsolation.hpp` and `common/details/EnvironmentIsolationDetail.hpp`: what
    they hold, and the way they are written as JSON and read back. */
module EnvironmentDocument {
  import opened Outcomes
  import opened IsolationDocument
  import opened DocumentItems

  datatype EnvironmentIsolation = Full | WriteCopy

  datatype MergeMode = Replace | Host | Prepend | Append

  const VERSION := 1

  datatype Entry = Entry(
    name: string, value: string, isolation: EnvironmentIsolation, merge: MergeMode, mergeString: string)

  datatype StateEntry = StateEntry(name: string, value: string, deleted: bool)

  /** The two documents have the same shape around entries of their own. */
  datatype Document<E> = Document(version: int, entries: seq<E>)

  // ----- tokens

  function IsolationToken(isolation: EnvironmentIsolation): string {
    match isolation
    case Full => "full"
    case WriteCopy => "write_copy"
  }

  function MergeModeToken(merge: MergeMode): string {
    match merge
    case Replace => "replace"
    case Host => "host"
    case Prepend => "prepend"
    case Append => "append"
  }

  /** The names of a mode. */
  function IsolationNames(isolation: EnvironmentIsolation): (names: seq<string>)
    ensures AreWords(names)
  {
    match isolation
    case Full => ["full"]
    case WriteCopy => ["write_copy", "writecopy"]
  }

  function MergeModeNames(merge: MergeMode): (names: seq<string>)
    ensures AreWords(names)
  {
    match merge
    case Replace => ["replace"]
    case Host => ["host"]
    case Prepend => ["prepend"]
    case Append => ["append"]
  }

  /** A token names a mode when it spells one of its names. */
  predicate NamesIsolation(token: string, isolation: EnvironmentIsolation) {
    SpellsOneOf(token, IsolationNames(isolation), true)
  }

  predicate NamesMergeMode(token: string, merge: MergeMode) {
    SpellsOneOf(token, MergeModeNames(merge), true)
  }

  function IsolationOf(token: string): Expected<EnvironmentIsolation> {
    if NamesIsolation(token, Full) then Ok(Full)
    else if NamesIsolation(token, WriteCopy) then Ok(WriteCopy)
    else Failed(IsolationTokenUnknown)
  }

  function MergeModeOf(token: string): Expected<MergeMode> {
    if NamesMergeMode(token, Replace) then Ok(Replace)
    else if NamesMergeMode(token, Host) then Ok(Host)
    else if NamesMergeMode(token, Prepend) then Ok(Prepend)
    else if NamesMergeMode(token, Append) then Ok(Append)
    else Failed(IsolationTokenUnknown)
  }

  /** No token names two modes. */
  lemma OneIsolation(token: string, a: EnvironmentIsolation, b: EnvironmentIsolation)
    requires NamesIsolation(token, a) && NamesIsolation(token, b)
    ensures a == b
  {
    hide SpellsOneOf;
    NormalizedIsName(token, IsolationNames(a), true);
    NormalizedIsName(token, IsolationNames(b), true);
  }

  lemma OneMergeMode(token: string, a: MergeMode, b: MergeMode)
    requires NamesMergeMode(token, a) && NamesMergeMode(token, b)
    ensures a == b
  {
    hide SpellsOneOf;
    NormalizedIsName(token, MergeModeNames(a), true);
    NormalizedIsName(token, MergeModeNames(b), true);
  }

  lemma IsolationOfExactly(token: string, isolation: EnvironmentIsolation)
    ensures IsolationOf(token) == Ok(isolation) <==> NamesIsolation(token, isolation)
  {
    hide NamesIsolation;
    if IsolationOf(token).Ok? && NamesIsolation(token, isolation) {
      OneIsolation(token, isolation, IsolationOf(token).value);
    }
  }

  lemma MergeModeOfExactly(token: string, merge: MergeMode)
    ensures MergeModeOf(token) == Ok(merge) <==> NamesMergeMode(token, merge)
  {
    hide NamesMergeMode;
    if MergeModeOf(token).Ok? && NamesMergeMode(token, merge) {
      OneMergeMode(token, merge, MergeModeOf(token).value);
    }
  }

  method ParseIsolationToken(token: string) returns (r: Expected<EnvironmentIsolation>)
    ensures forall isolation :: r == Ok(isolation) <==> NamesIsolation(token, isolation)
    ensures r.Failed? ==> r.code == IsolationTokenUnknown
  {
    hide SpellsOneOf;
    forall isolation
      ensures NamesIsolation(token, isolation) <==> NormalizedToken(token, true) in IsolationNames(isolation)
    {
      NormalizedIsName(token, IsolationNames(isolation), true);
    }
    var normalized := NormalizeToken(token, true);
    if normalized == "full" {
      return Ok(Full);
    }
    if normalized == "write_copy" || normalized == "writecopy" {
      return Ok(WriteCopy);
    }
    return Failed(IsolationTokenUnknown);
  }

  method ParseMergeModeToken(token: string) returns (r: Expected<MergeMode>)
    ensures forall merge :: r == Ok(merge) <==> NamesMergeMode(token, merge)
    ensures r.Failed? ==> r.code == IsolationTokenUnknown
  {
    hide SpellsOneOf;
    forall merge
      ensures NamesMergeMode(token, merge) <==> NormalizedToken(token, true) in MergeModeNames(merge)
    {
      NormalizedIsName(token, MergeModeNames(merge), true);
    }
    var normalized := NormalizeToken(token, true);
    if normalized == "replace" {
      return Ok(Replace);
    }
    if normalized == "host" {
      return Ok(Host);
    }
    if normalized == "prepend" {
      return Ok(Prepend);
    }
    if normalized == "append" {
      return Ok(Append);
    }
    return Failed(IsolationTokenUnknown);
  }

  // ----- entries

  function EntryToJson(entry: Entry): Json {
    Object(map["name" := Text(entry.name),
               "value" := Text(entry.value),
               "isolation" := Text(IsolationToken(entry.isolation)),
               "merge" := Text(MergeModeToken(entry.merge)),
               "merge_string" := Text(entry.mergeString)])
  }

  function StateEntryToJson(entry: StateEntry): Json {
    Object(map["name" := Text(entry.name), "value" := Text(entry.value), "deleted" := Boolean(entry.deleted)])
  }

  /** What an entry has to be for the reader to accept it. */
  predicate ValidEntry(entry: Entry) {
    entry.name != "" && '=' !in entry.name
  }

  predicate ValidStateEntry(entry: StateEntry) {
    entry.name != ""
  }

  /** The members of an object spell an entry. */
  predicate SpellsEntry(json: Json, entry: Entry) {
    && Holds(json, "name", Text(entry.name))
    && Holds(json, "value", Text(entry.value))
    && Holds(json, "merge_string", Text(entry.mergeString))
    && HasKey(json, "isolation") && json.members["isolation"].Text?
    && NamesIsolation(json.members["isolation"].text, entry.isolation)
    && HasKey(json, "merge") && json.members["merge"].Text? && NamesMergeMode(json.members["merge"].text, entry.merge)
  }

  predicate SpellsStateEntry(json: Json, entry: StateEntry) {
    && Holds(json, "name", Text(entry.name))
    && Holds(json, "value", Text(entry.value))
    && Holds(json, "deleted", Boolean(entry.deleted))
  }

  function EntryFromJson(json: Json): Expected<Entry> {
    match (RequiredText(json, "name"), RequiredText(json, "value"), RequiredText(json, "merge_string"))
    case (Ok(name), Ok(value), Ok(mergeString)) =>
      (match (RequiredText(json, "isolation"), RequiredText(json, "merge"))
       case (Ok(isolationToken), Ok(mergeToken)) =>
         (match (IsolationOf(isolationToken), MergeModeOf(mergeToken))
          case (Ok(isolation), Ok(merge)) =>
            if name == "" || '=' in name then Refused()
            else Ok(Entry(name, value, isolation, merge, mergeString))
          case _ => Refused())
       case _ => Refused())
    case _ => Refused()
  }

  function StateEntryFromJson(json: Json): Expected<StateEntry> {
    match (RequiredText(json, "name"), RequiredText(json, "value"), RequiredFlag(json, "deleted"))
    case (Ok(name), Ok(value), Ok(deleted)) =>
      if name == "" then Refused() else Ok(StateEntry(name, value, deleted))
    case _ => Refused()
  }

  /** An entry is read exactly from the objects that spell it, and it is valid. */
  lemma EntryReadExactly(json: Json, entry: Entry)
    ensures EntryFromJson(json) == Ok(entry) <==> ValidEntry(entry) && SpellsEntry(json, entry)
    ensures EntryFromJson(json).Failed? ==> EntryFromJson(json) == Refused()
  {
    hide IsolationOf, MergeModeOf, NamesIsolation, NamesMergeMode;
    if RequiredText(json, "isolation").Ok? {
      IsolationOfExactly(RequiredText(json, "isolation").value, entry.isolation);
    }
    if RequiredText(json, "merge").Ok? {
      MergeModeOfExactly(RequiredText(json, "merge").value, entry.merge);
    }
  }

  lemma StateEntryReadExactly(json: Json, entry: StateEntry)
    ensures StateEntryFromJson(json) == Ok(entry) <==> ValidStateEntry(entry) && SpellsStateEntry(json, entry)
    ensures StateEntryFromJson(json).Failed? ==> StateEntryFromJson(json) == Refused()
  {
  }

  method ReadEntry(json: Json) returns (r: Expected<Entry>)
    ensures forall entry :: r == Ok(entry) <==> ValidEntry(entry) && SpellsEntry(json, entry)
    ensures r.Failed? ==> r == Refused()
  {
    hide NamesIsolation, NamesMergeMode;
    if !json.Object? {
      return Refused();
    }
    var name := RequiredText(json, "name");
    if name.Failed? {
      return Refused();
    }
    var value := RequiredText(json, "value");
    if value.Failed? {
      return Refused();
    }
    var mergeString := RequiredText(json, "merge_string");
    if mergeString.Failed? {
      return Refused();
    }
    var isolationToken := RequiredText(json, "isolation");
    if isolationToken.Failed? {
      return Refused();
    }
    var isolation := ParseIsolationToken(isolationToken.value);
    if isolation.Failed? {
      return Refused();
    }
    var mergeToken := RequiredText(json, "merge");
    if mergeToken.Failed? {
      return Refused();
    }
    var merge := ParseMergeModeToken(mergeToken.value);
    if merge.Failed? {
      return Refused();
    }
    if name.value == "" {
      return Refused();
    }
    if '=' in name.value {
      return Refused();
    }
    return Ok(Entry(name.value, value.value, isolation.value, merge.value, mergeString.value));
  }

  method ReadStateEntry(json: Json) returns (r: Expected<StateEntry>)
    ensures forall entry :: r == Ok(entry) <==> ValidStateEntry(entry) && SpellsStateEntry(json, entry)
    ensures r.Failed? ==> r == Refused()
  {
    if !json.Object? {
      return Refused();
    }
    var name := RequiredText(json, "name");
    if name.Failed? {
      return Refused();
    }
    var value := RequiredText(json, "value");
    if value.Failed? {
      return Refused();
    }
    var deleted := RequiredFlag(json, "deleted");
    if deleted.Failed? {
      return Refused();
    }
    if name.value == "" {
      return Refused();
    }
    return Ok(StateEntry(name.value, value.value, deleted.value));
  }

  lemma TokensRoundTrip(isolation: EnvironmentIsolation, merge: MergeMode)
    ensures IsolationOf(IsolationToken(isolation)) == Ok(isolation)
    ensures MergeModeOf(MergeModeToken(merge)) == Ok(merge)
  {
    NamesItself(IsolationToken(isolation), IsolationNames(isolation), true);
    NamesItself(MergeModeToken(merge), MergeModeNames(merge), true);
    hide SpellsOneOf;
    IsolationOfExactly(IsolationToken(isolation), isolation);
    MergeModeOfExactly(MergeModeToken(merge), merge);
  }

  lemma EntryRoundTrip(entry: Entry)
    ensures EntryFromJson(EntryToJson(entry)) == if ValidEntry(entry) then Ok(entry) else Refused()
  {
    hide IsolationOf, IsolationToken, MergeModeOf, MergeModeToken;
    TokensRoundTrip(entry.isolation, entry.merge);
  }

  lemma StateEntryRoundTrip(entry: StateEntry)
    ensures StateEntryFromJson(StateEntryToJson(entry)) == if ValidStateEntry(entry) then Ok(entry) else Refused()
  {
  }

  // ----- documents, over the writer and the reader of their entries

  function DocumentToJson<E>(write: E -> Json, document: Document<E>): Json {
    Object(map["version" := Integer(document.version), "entries" := Array(ItemsToJson(write, document.entries))])
  }

  function DocumentFromJson<E>(read: Json -> Expected<E>, json: Json): Expected<Document<E>> {
    match (RequiredInt(json, "version"), RequiredArray(json, "entries"))
    case (Ok(version), Ok(items)) =>
      (match ItemsFromJson(read, items)
       case Ok(entries) => Ok(Document(version, entries))
       case Failed(_) => Refused())
    case _ => Refused()
  }

  function Parsed<E>(read: Json -> Expected<E>, text: Option<Json>): Expected<Document<E>> {
    if text.None? || !text.value.Object? then Refused()
    else
      match RequireVersion(text.value, "version", VERSION)
      case Failed(code) => Failed(code)
      case Ok(_) => DocumentFromJson(read, text.value)
  }

  method WriteDocument<E>(write: E -> Json, document: Document<E>) returns (json: Json)
    ensures json == DocumentToJson(write, document)
  {
    var entries := WriteItems(write, document.entries);
    json := Object(map["version" := Integer(document.version), "entries" := Array(entries)]);
  }

  /** The reader of either document, over what the reader of its entries computes: `ReadEntry` for
      the isolation file and `ReadStateEntry` for the state file. */
  method ReadDocument<E>(read: Json -> Expected<E>, json: Json) returns (r: Expected<Document<E>>)
    ensures r == DocumentFromJson(read, json)
  {
    if !json.Object? {
      return Refused();
    }
    var version := RequiredInt(json, "version");
    if version.Failed? {
      return Refused();
    }
    var items := RequiredArray(json, "entries");
    if items.Failed? {
      return Refused();
    }
    var entries := ReadItems(read, items.value);
    if entries.Failed? {
      return Refused();
    }
    return Ok(Document(version.value, entries.value));
  }

  /** `ParseDocument` and `ParseStateDocument` */
  method ParseDocument<E>(read: Json -> Expected<E>, text: Option<Json>) returns (r: Expected<Document<E>>)
    ensures r == Parsed(read, text)
  {
    if text.None? || !text.value.Object? {
      return Refused();
    }
    var version := RequireVersion(text.value, "version", VERSION);
    if version.Failed? {
      return Failed(version.code);
    }
    r := ReadDocument(read, text.value);
  }

  // ----- round trips

  lemma DocumentRoundTrip<E(!new)>(
      write: E -> Json, read: Json -> Expected<E>, valid: E -> bool, document: Document<E>)
    requires RoundTrips(write, read, valid)
    requires -0x8000_0000 <= document.version < 0x8000_0000
    ensures DocumentFromJson(read, DocumentToJson(write, document))
            == if AllValid(valid, document.entries) then Ok(document) else Refused()
  {
    ItemsRoundTrip(write, read, valid, document.entries);
  }

  lemma EntriesRoundTrip()
    ensures RoundTrips(EntryToJson, EntryFromJson, ValidEntry)
  {
    forall e: Entry
      ensures EntryFromJson(EntryToJson(e)) == if ValidEntry(e) then Ok(e) else Refused()
    {
      EntryRoundTrip(e);
    }
  }

  lemma StateEntriesRoundTrip()
    ensures RoundTrips(StateEntryToJson, StateEntryFromJson, ValidStateEntry)
  {
    forall e: StateEntry
      ensures StateEntryFromJson(StateEntryToJson(e)) == if ValidStateEntry(e) then Ok(e) else Refused()
    {
      StateEntryRoundTrip(e);
    }
  }

  /** A written isolation file is read back as it was exactly when each variable has a name, and
      the name no equals sign. */
  lemma IsolationDocumentRoundTrip(document: Document<Entry>)
    requires -0x8000_0000 <= document.version < 0x8000_0000
    ensures DocumentFromJson(EntryFromJson, DocumentToJson(EntryToJson, document))
            == if AllValid(ValidEntry, document.entries) then Ok(document) else Refused()
  {
    EntriesRoundTrip();
    DocumentRoundTrip(EntryToJson, EntryFromJson, ValidEntry, document);
  }

  /** A written state file is read back as it was exactly when each variable has a name. */
  lemma StateDocumentRoundTrip(document: Document<StateEntry>)
    requires -0x8000_0000 <= document.version < 0x8000_0000
    ensures DocumentFromJson(StateEntryFromJson, DocumentToJson(StateEntryToJson, document))
            == if AllValid(ValidStateEntry, document.entries) then Ok(document) else Refused()
  {
    hide StateEntryToJson, StateEntryFromJson;
    StateEntriesRoundTrip();
    DocumentRoundTrip(StateEntryToJson, StateEntryFromJson, ValidStateEntry, document);
  }

  lemma ParsedAgain<E(!new)>(write: E -> Json, read: Json -> Expected<E>, valid: E -> bool, text: Option<Json>)
    requires RoundTrips(write, read, valid) && ReadsValid(read, valid) && Parsed(read, text).Ok?
    ensures var document := Parsed(read, text).value;
            && document.version == VERSION && AllValid(valid, document.entries)
            && Parsed(read, Some(DocumentToJson(write, document))) == Ok(document)
  {
    ItemsReadAreValid(read, valid, RequiredArray(text.value, "entries").value);
    DocumentRoundTrip(write, read, valid, Parsed(read, text).value);
  }

  /** Every isolation file the reader accepts is written to one the reader accepts as equal. */
  lemma ParsedRoundTrip(text: Option<Json>)
    requires Parsed(EntryFromJson, text).Ok?
    ensures var document := Parsed(EntryFromJson, text).value;
            && document.version == VERSION && AllValid(ValidEntry, document.entries)
            && Parsed(EntryFromJson, Some(DocumentToJson(EntryToJson, document))) == Ok(document)
  {
    EntriesRoundTrip();
    ParsedAgain(EntryToJson, EntryFromJson, ValidEntry, text);
  }

  /** The same of every state file. */
  lemma ParsedStateRoundTrip(text: Option<Json>)
    requires Parsed(StateEntryFromJson, text).Ok?
    ensures var document := Parsed(StateEntryFromJson, text).value;
            && document.version == VERSION && AllValid(ValidStateEntry, document.entries)
            && Parsed(StateEntryFromJson, Some(DocumentToJson(StateEntryToJson, document))) == Ok(document)
  {
    hide StateEntryToJson;
    StateEntriesRoundTrip();
    ParsedAgain(StateEntryToJson, StateEntryFromJson, ValidStateEntry, text);
  }

  // ----- what is accepted, member by member

  /** The words of the modes. */
  lemma Words()
    ensures IsolationToken(Full) == "full" && IsolationToken(WriteCopy) == "write_copy"
    ensures MergeModeToken(Replace) == "replace" && MergeModeToken(Host) == "host"
    ensures MergeModeToken(Prepend) == "prepend" && MergeModeToken(Append) == "append"
    ensures IsolationNames(Full) == ["full"] && IsolationNames(WriteCopy) == ["write_copy", "writecopy"]
    ensures MergeModeNames(Replace) == ["replace"] && MergeModeNames(Host) == ["host"]
    ensures MergeModeNames(Prepend) == ["prepend"] && MergeModeNames(Append) == ["append"]
  {
  }

  /** Some spellings. */
  lemma Spellings()
    ensures IsolationOf("Write-Copy") == IsolationOf("write copy") == IsolationOf("WRITECOPY") == Ok(WriteCopy)
  {
    hide IsolationOf;
    SpellsIsolation("Write-Copy", WriteCopy, 0);
    SpellsIsolation("write copy", WriteCopy, 0);
    SpellsIsolation("WRITECOPY", WriteCopy, 1);
  }

  lemma SpellsIsolation(token: string, isolation: EnvironmentIsolation, i: nat)
    requires i < |IsolationNames(isolation)| && Spells(token, IsolationNames(isolation)[i], true)
    ensures IsolationOf(token) == Ok(isolation)
  {
    IsolationOfExactly(token, isolation);
  }

  /** The reader of an entry answers with the entries an object spells. */
  ghost predicate ReadsSpelled<E(!new)>(read: Json -> Expected<E>, spells: (Json, E) -> bool) {
    forall json, e :: read(json) == Ok(e) <==> spells(json, e)
  }

  predicate SpellAll<E>(spells: (Json, E) -> bool, items: seq<Json>, entries: seq<E>) {
    |items| == |entries| && forall i :: 0 <= i < |items| ==> spells(items[i], entries[i])
  }

  /** A document is read exactly from an object that holds its version, and a list that spells its
      entries, in order and without one more. */
  lemma DocumentReadExactly<E(!new)>(
      read: Json -> Expected<E>, spells: (Json, E) -> bool, json: Json, document: Document<E>)
    requires ReadsSpelled(read, spells)
    ensures DocumentFromJson(read, json) == Ok(document) <==>
            HoldsInt(json, "version", document.version)
            && exists items :: Holds(json, "entries", Array(items)) && SpellAll(spells, items, document.entries)
    ensures DocumentFromJson(read, json).Failed? ==> DocumentFromJson(read, json).code == IsolationDocumentInvalid
  {
    hide ItemsFromJson, HoldsInt, ToInt32, SpellAll;
    IntExactly(json, "version", document.version);
    forall items
      ensures RequiredArray(json, "entries") == Ok(items) <==> Holds(json, "entries", Array(items))
      ensures ItemsFromJson(read, items) == Ok(document.entries) <==> SpellAll(spells, items, document.entries)
    {
      ListExactly(json, "entries", items);
      SpelledExactly(read, spells, items, document.entries);
    }
  }

  lemma SpelledExactly<E(!new)>(
      read: Json -> Expected<E>, spells: (Json, E) -> bool, items: seq<Json>, entries: seq<E>)
    requires ReadsSpelled(read, spells)
    ensures ItemsFromJson(read, items) == Ok(entries) <==> SpellAll(spells, items, entries)
  {
    ItemsReadExactly(read, items, entries);
  }

  /** The text of a file is accepted exactly when it is an object whose version is one and which a
      document is read from. Another whole number for the version has a code of its own. */
  lemma ParsedExactly<E>(read: Json -> Expected<E>, text: Option<Json>, document: Document<E>)
    ensures Parsed(read, text) == Ok(document) <==>
            text.Some? && HoldsInt(text.value, "version", 1) && DocumentFromJson(read, text.value) == Ok(document)
    ensures Parsed(read, text) == Failed(IsolationDocumentUnsupportedVersion) <==>
            text.Some? && HasKey(text.value, "version") && text.value.members["version"].Integer?
            && !HoldsInt(text.value, "version", 1)
  {
    hide ItemsFromJson, HoldsInt, ToInt32;
    if text.Some? {
      IntExactly(text.value, "version", 1);
      HoldsIsObject(text.value, "version", 1);
    }
  }

  lemma HoldsIsObject(json: Json, key: string, i: int)
    ensures HoldsInt(json, key, i) ==> json.Object?
  {
  }

  predicate SpellsValid(json: Json, entry: Entry) {
    entry.name != "" && '=' !in entry.name && SpellsEntry(json, entry)
  }

  predicate SpellsValidState(json: Json, entry: StateEntry) {
    entry.name != "" && SpellsStateEntry(json, entry)
  }

  /** The two readers are of that kind: a name that is not empty, and for the isolation file without an
      equals sign. */
  lemma ReadersReadSpelled()
    ensures ReadsSpelled(EntryFromJson, SpellsValid)
    ensures ReadsSpelled(StateEntryFromJson, SpellsValidState)
  {
    forall json, e
      ensures EntryFromJson(json) == Ok(e) <==> SpellsValid(json, e)
    {
      EntryReadExactly(json, e);
    }
    forall json, e
      ensures StateEntryFromJson(json) == Ok(e) <==> SpellsValidState(json, e)
    {
      StateEntryReadExactly(json, e);
    }
  }
}
