/**
 * The service records held by the registry, the search filter behind
 * `GET /services`, the linear lookup behind the `:id` routes, and the
 * invariant that the table of records keeps.
 */
module Catalog {
  import opened Wrappers
  import opened Text
  import opened Validation

  /** One service entry; timestamps are abstract clock readings. */
  datatype Record = Record(
    id: nat,
    name: string,
    description: Option<string>,
    price: real,
    createdAt: nat,
    updatedAt: nat)

  /** The `name`, `description` and `price` keys of a request body (`req.body ?? {}`). */
  datatype Body = Body(name: Value, description: Value, price: Value)

  /** The failures a handler answers with: 400 `Invalid id`, 404 `Service not found`, 400 with a message. */
  datatype Error = InvalidId | NotFound | ValidationError(message: string)

  datatype Result<T> = Ok(value: T) | Err(error: Error)

  /** The `{ count, data }` answer of the list endpoint. */
  datatype Listing = Listing(count: nat, data: seq<Record>)

  // ---------------------------------------------------------------------
  // Search

  /** The query as the list handler uses it: trimmed and lower-cased, or empty when absent. */
  function Needle(q: Option<string>): string
  {
    if q.Some? then ToLower(Trim(q.value)) else ""
  }

  /** A record matches when its lower-cased name, or its lower-cased description if present, contains the needle. */
  predicate Matches(r: Record, needle: string)
  {
    Contains(ToLower(r.name), needle)
    || (r.description.Some? && Contains(ToLower(r.description.value), needle))
  }

  /** `services.filter(...)`: the matching records in their original order. */
  function Filter(s: seq<Record>, needle: string): seq<Record>
  {
    if s == [] then []
    else (if Matches(s[0], needle) then [s[0]] else []) + Filter(s[1..], needle)
  }

  /** A record is kept exactly when it is in the table and matches. */
  lemma {:induction false} FilterMembership(s: seq<Record>, needle: string, r: Record)
    ensures r in Filter(s, needle) <==> r in s && Matches(r, needle)
  {
    if s != [] {
      FilterMembership(s[1..], needle, r);
      assert s == [s[0]] + s[1..];
    }
  }

  /** Filtering a concatenation filters each part in turn, so the relative order of records is kept. */
  lemma {:induction false} FilterConcat(a: seq<Record>, b: seq<Record>, needle: string)
    ensures Filter(a + b, needle) == Filter(a, needle) + Filter(b, needle)
  {
    if a == [] {
      assert a + b == b;
    } else {
      FilterConcat(a[1..], b, needle);
      assert (a + b)[1..] == a[1..] + b;
    }
  }

  /** When every record matches, nothing is dropped. */
  lemma {:induction false} FilterAllMatch(s: seq<Record>, needle: string)
    requires forall i :: 0 <= i < |s| ==> Matches(s[i], needle)
    ensures Filter(s, needle) == s
  {
    if s != [] {
      FilterAllMatch(s[1..], needle);
    }
  }

  /** When no record matches, the answer is empty. */
  lemma {:induction false} FilterNoneMatch(s: seq<Record>, needle: string)
    requires forall i :: 0 <= i < |s| ==> !Matches(s[i], needle)
    ensures Filter(s, needle) == []
  {
    if s != [] {
      FilterNoneMatch(s[1..], needle);
    }
  }

  /** `GET /services?q=...` over the current table. */
  function Search(services: seq<Record>, q: Option<string>): (resp: Listing)
    ensures resp.count == |resp.data|
    ensures Needle(q) == [] ==> resp.data == services
    ensures Needle(q) != [] ==> resp.data == Filter(services, Needle(q))
  {
    var needle := Needle(q);
    var data := if needle != [] then Filter(services, needle) else services;
    Listing(|data|, data)
  }

  /** `needle` occurs somewhere in `text`. */
  ghost predicate Mentions(text: string, needle: string)
  {
    exists i :: OccursAt(text, needle, i)
  }

  /**
   * A non-blank query returns exactly the records that contain it, in name
   * or description, ignoring ASCII case.
   */
  lemma SearchMembership(services: seq<Record>, q: Option<string>, r: Record)
    requires Needle(q) != []
    ensures r in Search(services, q).data <==>
      r in services &&
      (Mentions(ToLower(r.name), Needle(q)) ||
       (r.description.Some? && Mentions(ToLower(r.description.value), Needle(q))))
  {
    var needle := Needle(q);
    FilterMembership(services, needle, r);
    ContainsIff(ToLower(r.name), needle);
    if r.description.Some? {
      ContainsIff(ToLower(r.description.value), needle);
    }
    assert Matches(r, needle) <==>
      Mentions(ToLower(r.name), needle) ||
      (r.description.Some? && Mentions(ToLower(r.description.value), needle));
  }

  /** An absent query, or one of spaces only, lists the whole table in order. */
  lemma SearchBlank(services: seq<Record>, q: Option<string>)
    requires q.None? || forall i :: 0 <= i < |q.value| ==> IsSpace(q.value[i])
    ensures Search(services, q) == Listing(|services|, services)
  {
  }

  // ---------------------------------------------------------------------
  // Lookup by id

  /** Some record in `s` carries `id`. */
  predicate HasId(s: seq<Record>, id: nat)
  {
    exists i :: 0 <= i < |s| && s[i].id == id
  }

  /** `services.findIndex(s => s.id === id)`: the first position holding `id`, or -1. */
  method FindIndex(services: seq<Record>, id: nat) returns (idx: int)
    ensures -1 <= idx < |services|
    ensures idx == -1 <==> !HasId(services, id)
    ensures 0 <= idx ==> services[idx].id == id && forall i :: 0 <= i < idx ==> services[i].id != id
  {
    var i := 0;
    while i < |services|
      invariant 0 <= i <= |services|
      invariant forall j :: 0 <= j < i ==> services[j].id != id
    {
      if services[i].id == id {
        return i;
      }
      i := i + 1;
    }
    return -1;
  }

  // ---------------------------------------------------------------------
  // The table invariant

  /** What every stored record satisfies: a trimmed non-empty name, a trimmed description, a price of at least zero. */
  predicate WellFormedRecord(r: Record)
  {
    && r.name != [] && IsTrimmed(r.name)
    && (r.description.Some? ==> IsTrimmed(r.description.value))
    && r.price >= 0.0
  }

  /** Ids are positive, unique and below the next id to be issued; every record is well formed. */
  predicate WellFormed(services: seq<Record>, nextId: nat)
  {
    && nextId > 0
    && (forall i :: 0 <= i < |services| ==> 0 < services[i].id < nextId && WellFormedRecord(services[i]))
    && (forall i, j :: 0 <= i < j < |services| ==> services[i].id != services[j].id)
  }

  /** Appending a well-formed record that takes the next id, and moving the counter on, keeps the invariant. */
  lemma AppendWellFormed(services: seq<Record>, nextId: nat, r: Record)
    requires WellFormed(services, nextId)
    requires WellFormedRecord(r) && r.id == nextId
    ensures WellFormed(services + [r], nextId + 1)
  {
  }

  /** Replacing a record by a well-formed one with the same id keeps the invariant. */
  lemma ReplaceWellFormed(services: seq<Record>, nextId: nat, k: nat, r: Record)
    requires WellFormed(services, nextId) && k < |services|
    requires WellFormedRecord(r) && r.id == services[k].id
    ensures WellFormed(services[k := r], nextId)
  {
  }

  /** Removing one record keeps the invariant, and its id is then absent from the table. */
  lemma RemoveWellFormed(services: seq<Record>, nextId: nat, k: nat)
    requires WellFormed(services, nextId) && k < |services|
    ensures WellFormed(services[..k] + services[k + 1..], nextId)
    ensures !HasId(services[..k] + services[k + 1..], services[k].id)
  {
    var rest := services[..k] + services[k + 1..];
    assert forall i :: 0 <= i < |rest| ==> rest[i] == services[if i < k then i else i + 1];
  }

  /** In a well-formed table the record carrying an id is the only one that does. */
  lemma UniqueId(services: seq<Record>, nextId: nat, i: nat, j: nat)
    requires WellFormed(services, nextId)
    requires i < |services| && j < |services| && services[i].id == services[j].id
    ensures i == j
  {
  }
}
