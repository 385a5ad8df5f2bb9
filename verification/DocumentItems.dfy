/** The list of entries every isolation file carries, over the writer and the reader of one entry.
    An entry that is refused refuses the file. */
module DocumentItems {
  import opened Outcomes
  import opened IsolationDocument

  function ItemsToJson<E>(write: E -> Json, entries: seq<E>): (items: seq<Json>)
    ensures |items| == |entries|
    ensures forall i :: 0 <= i < |items| ==> items[i] == write(entries[i])
  {
    seq(|entries|, i requires 0 <= i < |entries| => write(entries[i]))
  }

  method WriteItems<E>(write: E -> Json, entries: seq<E>) returns (items: seq<Json>)
    ensures items == ItemsToJson(write, entries)
  {
    items := [];
    for i := 0 to |entries|
      invariant items == ItemsToJson(write, entries)[..i]
    {
      items := items + [write(entries[i])];
    }
    assert items == ItemsToJson(write, entries);
  }

  /** The entries read so far, in front of the ones that follow. */
  function Behind<E>(entries: seq<E>, rest: Expected<seq<E>>): Expected<seq<E>> {
    if rest.Ok? then Ok(entries + rest.value) else rest
  }

  function ItemsFromJson<E>(read: Json -> Expected<E>, items: seq<Json>): (r: Expected<seq<E>>)
    ensures r.Failed? ==> r == Refused()
    ensures r.Ok? ==> |r.value| == |items|
  {
    if items == [] then Ok([])
    else if read(items[0]).Failed? then Refused()
    else Behind([read(items[0]).value], ItemsFromJson(read, items[1..]))
  }

  method ReadItems<E>(read: Json -> Expected<E>, items: seq<Json>) returns (r: Expected<seq<E>>)
    ensures r == ItemsFromJson(read, items)
  {
    var entries: seq<E> := [];
    ghost var all := ItemsFromJson(read, items);
    assert items[0..] == items;
    assert all.Ok? ==> entries + all.value == all.value;
    for i := 0 to |items|
      invariant all == Behind(entries, ItemsFromJson(read, items[i..]))
    {
      ghost var rest := ItemsFromJson(read, items[i + 1..]);
      assert items[i..][1..] == items[i + 1..];
      var entry := read(items[i]);
      if entry.Failed? {
        return Refused();
      }
      assert rest.Ok? ==> entries + ([entry.value] + rest.value) == entries + [entry.value] + rest.value;
      entries := entries + [entry.value];
    }
    assert entries + [] == entries;
    return Ok(entries);
  }

  /** A list is read exactly when every item of it is, and its entries are the ones of the items. */
  lemma {:induction false} ItemsReadExactly<E>(read: Json -> Expected<E>, items: seq<Json>, entries: seq<E>)
    ensures ItemsFromJson(read, items) == Ok(entries) <==>
            |entries| == |items| && forall i :: 0 <= i < |items| ==> read(items[i]) == Ok(entries[i])
  {
    if items != [] && entries != [] {
      ItemsReadExactly(read, items[1..], entries[1..]);
      assert entries == [entries[0]] + entries[1..];
      assert forall i :: 0 < i < |items| ==> items[i] == items[1..][i - 1];
      assert |entries| == |items| ==> forall i :: 0 < i < |items| ==> entries[i] == entries[1..][i - 1];
    }
  }

  // ----- round trips

  /** The reader of an entry undoes its writer on the valid entries, and refuses the others. */
  ghost predicate RoundTrips<E(!new)>(write: E -> Json, read: Json -> Expected<E>, valid: E -> bool) {
    forall e :: read(write(e)) == if valid(e) then Ok(e) else Refused()
  }

  /** The reader of an entry answers with valid entries only. */
  ghost predicate ReadsValid<E>(read: Json -> Expected<E>, valid: E -> bool) {
    forall json :: read(json).Ok? ==> valid(read(json).value)
  }

  predicate AllValid<E>(valid: E -> bool, entries: seq<E>) {
    forall i :: 0 <= i < |entries| ==> valid(entries[i])
  }

  lemma {:induction false} ItemsRoundTrip<E(!new)>(
      write: E -> Json, read: Json -> Expected<E>, valid: E -> bool, entries: seq<E>)
    requires RoundTrips(write, read, valid)
    ensures ItemsFromJson(read, ItemsToJson(write, entries))
            == if AllValid(valid, entries) then Ok(entries) else Refused()
  {
    if entries != [] {
      ItemsRoundTrip(write, read, valid, entries[1..]);
      assert ItemsToJson(write, entries)[1..] == ItemsToJson(write, entries[1..]);
      assert [entries[0]] + entries[1..] == entries;
      assert AllValid(valid, entries) <==> valid(entries[0]) && AllValid(valid, entries[1..]);
    }
  }

  lemma {:induction false} ItemsReadAreValid<E>(read: Json -> Expected<E>, valid: E -> bool, items: seq<Json>)
    requires ReadsValid(read, valid)
    ensures ItemsFromJson(read, items).Ok? ==> AllValid(valid, ItemsFromJson(read, items).value)
  {
    if items != [] {
      ItemsReadAreValid(read, valid, items[1..]);
    }
  }
}
