/** The reading helpers of `common/IsolationDocument.hpp`, over JSON documents as values. What the
    helpers throw is caught by the readers of a document and answered by one code, so a thrown
    member is the failure of that code here. */
module IsolationDocument {
  import opened Outcomes
  import opened WideText

  /** A number is an integer of the 64 bits the JSON layer keeps, signed or not, or a real. */
  datatype Json =
    | Null
    | Boolean(flag: bool)
    | Integer(number: int)
    | Real(value: real)
    | Text(text: string)
    | Array(items: seq<Json>)
    | Object(members: map<string, Json>)

  function Refused<T>(): Expected<T> {
    Failed(IsolationDocumentInvalid)
  }

  /** `get<int>()` of an integer: the lowest 32 bits of it, as a signed number. */
  function ToInt32(n: int): (i: int)
    ensures -0x8000_0000 <= i < 0x8000_0000
    ensures (i - n) % 0x1_0000_0000 == 0
  {
    (n + 0x8000_0000) % 0x1_0000_0000 - 0x8000_0000
  }

  /** A value that is no object holds no member. */
  function FindMember(json: Json, key: string): Option<Json> {
    if json.Object? && key in json.members then Some(json.members[key]) else None
  }

  function RequiredText(json: Json, key: string): Expected<string> {
    match FindMember(json, key)
    case Some(Text(text)) => Ok(text)
    case _ => Refused()
  }

  function RequiredFlag(json: Json, key: string): Expected<bool> {
    match FindMember(json, key)
    case Some(Boolean(flag)) => Ok(flag)
    case _ => Refused()
  }

  function RequiredInt(json: Json, key: string): Expected<int> {
    match FindMember(json, key)
    case Some(Integer(number)) => Ok(ToInt32(number))
    case _ => Refused()
  }

  /** A member which the object does not hold is an empty list. */
  function OptionalArray(json: Json, key: string): Expected<seq<Json>> {
    match FindMember(json, key)
    case None => Ok([])
    case Some(Array(items)) => Ok(items)
    case _ => Refused()
  }

  function RequiredArray(json: Json, key: string): Expected<seq<Json>> {
    match FindMember(json, key)
    case Some(Array(items)) => Ok(items)
    case _ => Refused()
  }

  /** The version member, checked before the rest of a document is read. */
  function RequireVersion(json: Json, key: string, expected: int): Expected<()> {
    match FindMember(json, key)
    case Some(Integer(number)) =>
      if ToInt32(number) != expected then Failed(IsolationDocumentUnsupportedVersion) else Ok(())
    case _ => Refused()
  }

  // ----- members as they stand in the object

  /** An object holds a value under a key. */
  predicate Holds(json: Json, key: string, value: Json) {
    json.Object? && key in json.members && json.members[key] == value
  }

  predicate HasKey(json: Json, key: string) {
    json.Object? && key in json.members
  }

  lemma TextExactly(json: Json, key: string, text: string)
    ensures RequiredText(json, key) == Ok(text) <==> Holds(json, key, Text(text))
    ensures RequiredText(json, key).Failed? ==> RequiredText(json, key).code == IsolationDocumentInvalid
  {
  }

  lemma FlagExactly(json: Json, key: string, flag: bool)
    ensures RequiredFlag(json, key) == Ok(flag) <==> Holds(json, key, Boolean(flag))
    ensures RequiredFlag(json, key).Failed? ==> RequiredFlag(json, key).code == IsolationDocumentInvalid
  {
  }

  /** A member that reads as a number: an integer with the same lowest 32 bits. */
  predicate HoldsInt(json: Json, key: string, i: int) {
    && -0x8000_0000 <= i < 0x8000_0000
    && json.Object? && key in json.members && json.members[key].Integer?
    && (json.members[key].number - i) % 0x1_0000_0000 == 0
  }

  lemma IntExactly(json: Json, key: string, i: int)
    ensures RequiredInt(json, key) == Ok(i) <==> HoldsInt(json, key, i)
    ensures RequiredInt(json, key).Failed? ==> RequiredInt(json, key).code == IsolationDocumentInvalid
  {
    if HoldsInt(json, key, i) {
      var n := json.members[key].number;
      var k := ToInt32(n);
      assert (k - n) % 0x1_0000_0000 == 0;
      SameInt(n, k, i);
    }
  }

  lemma SameInt(n: int, k: int, i: int)
    requires -0x8000_0000 <= i < 0x8000_0000 && -0x8000_0000 <= k < 0x8000_0000
    requires (k - n) % 0x1_0000_0000 == 0 && (n - i) % 0x1_0000_0000 == 0
    ensures k == i
  {
    var a, b := (k - n) / 0x1_0000_0000, (n - i) / 0x1_0000_0000;
    assert k - i == 0x1_0000_0000 * (a + b);
  }

  /** The list a document has: the one of its member, and where `optional`, none without the member. */
  predicate HoldsList(json: Json, key: string, optional: bool, items: seq<Json>) {
    Holds(json, key, Array(items)) || (optional && !HasKey(json, key) && items == [])
  }

  lemma ListExactly(json: Json, key: string, items: seq<Json>)
    ensures OptionalArray(json, key) == Ok(items) <==> HoldsList(json, key, true, items)
    ensures RequiredArray(json, key) == Ok(items) <==> HoldsList(json, key, false, items)
  {
  }

  // ----- tokens

  /** A token ignores the case of its letters, and where `dashes` is set it may be written with
      spaces or dashes in place of underscores. */
  function NormalizedChar(c: char, dashes: bool): char {
    var lower := AsciiLower(c);
    if dashes && (lower == ' ' || lower == '-') then '_' else lower
  }

  function NormalizedToken(token: string, dashes: bool): (t: string)
    ensures |t| == |token|
    ensures forall i :: 0 <= i < |t| ==> t[i] == NormalizedChar(token[i], dashes)
  {
    seq(|token|, i requires 0 <= i < |token| => NormalizedChar(token[i], dashes))
  }

  method NormalizeToken(token: string, dashes: bool) returns (normalized: string)
    ensures normalized == NormalizedToken(token, dashes)
  {
    normalized := "";
    for i := 0 to |token|
      invariant |normalized| == i
      invariant forall k :: 0 <= k < i ==> normalized[k] == NormalizedChar(token[k], dashes)
    {
      var lower := token[i];
      if 'A' <= lower <= 'Z' {
        lower := (lower as int + 32) as char;
      }
      if dashes && (lower == ' ' || lower == '-') {
        lower := '_';
      }
      normalized := normalized + [lower];
    }
  }

  // ----- what a token names

  /** A character spells a letter in either case, and where `dashes` is set a space or a dash spells
      an underscore. */
  predicate SpellsChar(c: char, letter: char, dashes: bool) {
    || c == letter
    || (IsUpper(c) && c as int + 32 == letter as int)
    || (dashes && letter == '_' && (c == ' ' || c == '-'))
  }

  predicate Spells(token: string, name: string, dashes: bool) {
    |token| == |name| && forall i :: 0 <= i < |name| ==> SpellsChar(token[i], name[i], dashes)
  }

  /** A token names what one of some names stands for. */
  predicate SpellsOneOf(token: string, names: seq<string>, dashes: bool) {
    exists i :: 0 <= i < |names| && Spells(token, names[i], dashes)
  }

  predicate IsWord(name: string) {
    forall i :: 0 <= i < |name| ==> IsLower(name[i]) || name[i] == '_'
  }

  predicate AreWords(names: seq<string>) {
    forall i :: 0 <= i < |names| ==> IsWord(names[i])
  }

  lemma NormalizedExactly(token: string, name: string, dashes: bool)
    requires IsWord(name)
    ensures NormalizedToken(token, dashes) == name <==> Spells(token, name, dashes)
  {
    if |token| == |name| {
      forall i | 0 <= i < |name|
        ensures NormalizedChar(token[i], dashes) == name[i] <==> SpellsChar(token[i], name[i], dashes)
      {
      }
    }
  }

  /** The comparison of a normalized token with some names finds out which of them it spells. */
  lemma NormalizedIsName(token: string, names: seq<string>, dashes: bool)
    requires AreWords(names)
    ensures NormalizedToken(token, dashes) in names <==> SpellsOneOf(token, names, dashes)
  {
    hide NormalizedToken, Spells;
    forall i | 0 <= i < |names|
      ensures NormalizedToken(token, dashes) == names[i] <==> Spells(token, names[i], dashes)
    {
      NormalizedExactly(token, names[i], dashes);
    }
  }

  lemma NamesItself(name: string, names: seq<string>, dashes: bool)
    requires name in names
    ensures SpellsOneOf(name, names, dashes)
  {
    var i :| 0 <= i < |names| && names[i] == name;
    assert Spells(name, names[i], dashes);
  }
}
