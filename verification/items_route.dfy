/**
 * The `/api/items` route handlers that change the stored list. Each handler reads the
 * stored array, builds a new one and writes it back; the stored array is modelled as a
 * field, without the file, the JSON encoding or the request parsing around it.
 */
module ItemsRoute {
  import opened Options
  import opened JsArray

  /** A stored entry or request body; its `name` may be missing, since nothing validates it. */
  datatype Entry = Entry(name: Option<string>)

  function NameOf(e: Entry): Option<string> {
    e.name
  }

  /** The JSON body both handlers answer with. */
  datatype Response = Response(status: int, data: Entry)

  /** POST's new array `[...currentData, data]`. */
  function Appended(stored: seq<Entry>, data: Entry): (r: seq<Entry>)
    ensures |r| == |stored| + 1
    ensures r[..|stored|] == stored && r[|stored|] == data
  {
    stored + [data]
  }

  /** DELETE's new array `currentData.filter(item => item.name !== data.name)`. */
  function Deleted(stored: seq<Entry>, data: Entry): (r: seq<Entry>)
    ensures |r| <= |stored|
  {
    Without(stored, NameOf, data.name)
  }

  /** POST does no duplicate check: posting a stored name stores it once more. */
  lemma PostRepeatsName(stored: seq<Entry>, data: Entry)
    ensures CountKey(Appended(stored, data), NameOf, data.name) == CountKey(stored, NameOf, data.name) + 1
  {
    CountKeyAppend(stored, [data], NameOf, data.name);
  }

  /** After DELETE no entry has the body's name (a body without a name removes the nameless entries). */
  lemma DeleteRemovesAll(stored: seq<Entry>, data: Entry)
    ensures forall e :: e in Deleted(stored, data) ==> e.name != data.name
  {
    WithoutExcludes(stored, NameOf, data.name);
  }

  /** DELETE keeps every entry with another name, as often as it was there and in the same order. */
  lemma DeleteKeepsOthers(stored: seq<Entry>, data: Entry)
    ensures forall e :: multiset(Deleted(stored, data))[e] == if e.name == data.name then 0 else multiset(stored)[e]
    ensures IsSubsequence(Deleted(stored, data), stored)
    ensures |Deleted(stored, data)| == |stored| - CountKey(stored, NameOf, data.name)
  {
    WithoutMultiplicity(stored, NameOf, data.name);
    WithoutIsSubsequence(stored, NameOf, data.name);
    WithoutLength(stored, NameOf, data.name);
  }

  /** DELETE of a name nothing has leaves the stored array as it was. */
  lemma DeleteAbsent(stored: seq<Entry>, data: Entry)
    requires forall e :: e in stored ==> e.name != data.name
    ensures Deleted(stored, data) == stored
  {
    WithoutAbsent(stored, NameOf, data.name);
  }

  /** DELETE twice with the same body is DELETE once. */
  lemma DeleteIdempotent(stored: seq<Entry>, data: Entry)
    ensures Deleted(Deleted(stored, data), data) == Deleted(stored, data)
  {
    WithoutIdempotent(stored, NameOf, data.name);
  }

  /** DELETE right after POST of a body with the same name undoes the POST and more. */
  lemma DeleteAfterPost(stored: seq<Entry>, data: Entry)
    ensures Deleted(Appended(stored, data), data) == Deleted(stored, data)
  {
    WithoutAppend(stored, [data], NameOf, data.name);
    assert Without([data], NameOf, data.name) == [];
  }

  /** The handlers around the stored array, each one read-modify-write. */
  class ItemsApi {
    var stored: seq<Entry>

    constructor (initial: seq<Entry>)
      ensures stored == initial
    {
      stored := initial;
    }

    method Post(data: Entry) returns (response: Response)
      modifies this
      ensures stored == old(stored) + [data]
      ensures response == Response(200, data)
    {
      var currentData := stored;
      var newData := Appended(currentData, data);
      stored := newData;
      response := Response(200, data);
    }

    method Delete(data: Entry) returns (response: Response)
      modifies this
      ensures stored == Deleted(old(stored), data)
      ensures forall e :: e in stored ==> e.name != data.name
      ensures response == Response(200, data)
    {
      var currentData := stored;
      var newData := Deleted(currentData, data);
      DeleteRemovesAll(currentData, data);
      stored := newData;
      response := Response(200, data);
    }
  }
}
