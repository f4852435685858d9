/**
 * The in-memory service registry: the ordered table `services` and the id
 * counter `nextId`, with the five handlers that read and change them.
 * Every handler validates before it changes anything.
 */
module Registry {
  import opened Wrappers
  import opened Text
  import opened Validation
  import opened Catalog

  /**
   * The description values the handlers can store. Once a request has passed
   * validation, any other type makes `.trim()` throw; a request refused
   * before that point may carry a description of any type.
   */
  predicate IsDescriptionInput(v: Value)
  {
    v.Missing? || v.Null? || v.Str?
  }

  /** `name !== undefined && !isNonEmptyString(name)`: a supplied name the update refuses. */
  predicate RejectsName(v: Value)
  {
    !v.Missing? && !IsNonEmptyString(v)
  }

  /** `price !== undefined && !isNonNegativeNumber(price)`: a supplied price the update refuses. */
  predicate RejectsPrice(v: Value)
  {
    !v.Missing? && !IsNonNegativeNumber(v)
  }

  class Registry {
    var services: seq<Record>
    var nextId: nat

    ghost predicate Valid()
      reads this
    {
      WellFormed(services, nextId)
    }

    /** The startup state: the one seeded record, id 1, and the counter at 2. */
    constructor (now: nat)
      ensures Valid()
      ensures services == [Record(1, "Basic Support", Some("Email support within business hours"), 10.0, now, now)]
      ensures nextId == 2
    {
      services := [Record(1, "Basic Support", Some("Email support within business hours"), 10.0, now, now)];
      nextId := 2;
    }

    /** `POST /services` */
    method Create(body: Body, now: nat) returns (r: Result<Record>)
      requires Valid()
      requires IsDescriptionInput(body.description) || !IsNonEmptyString(body.name) || !IsNonNegativeNumber(body.price)
      modifies this
      ensures Valid()
      ensures !IsNonEmptyString(body.name) ==>
        r == Err(ValidationError("name is required")) && services == old(services) && nextId == old(nextId)
      ensures IsNonEmptyString(body.name) && !IsNonNegativeNumber(body.price) ==>
        && r == Err(ValidationError("price must be a non-negative number"))
        && services == old(services) && nextId == old(nextId)
      ensures IsNonEmptyString(body.name) && IsNonNegativeNumber(body.price) ==>
        && r.Ok?
        && r.value.id == old(nextId) && nextId == old(nextId) + 1
        && services == old(services) + [r.value]
        && r.value.name == Trim(body.name.s)
        && (r.value.description.Some? <==> body.description.Str? && Trim(body.description.s) != [])
        && (r.value.description.Some? ==> r.value.description.value == Trim(body.description.s))
        && r.value.price == body.price.x
        && r.value.createdAt == now && r.value.updatedAt == now
      ensures r.Ok? ==> forall i :: 0 <= i < |old(services)| ==> old(services)[i].id < r.value.id
    {
      if !IsNonEmptyString(body.name) {
        return Err(ValidationError("name is required"));
      }
      if !IsNonNegativeNumber(body.price) {
        return Err(ValidationError("price must be a non-negative number"));
      }
      var description := None;
      if body.description.Str? {
        var d := Trim(body.description.s);
        if d != [] {
          description := Some(d);
        }
      }
      var name := Trim(body.name.s);
      assert name != [];
      var record := Record(nextId, name, description, body.price.x, now, now);
      assert WellFormedRecord(record);
      AppendWellFormed(services, nextId, record);
      services, nextId := services + [record], nextId + 1;
      r := Ok(record);
    }

    /** `GET /services?q=...`: reads the table, changes nothing. */
    method List(q: Option<string>) returns (resp: Listing)
      ensures resp == Search(services, q)
    {
      resp := Search(services, q);
    }

    /** `GET /services/:id` */
    method Get(rawId: string) returns (r: Result<Record>)
      requires Valid()
      ensures ParseId(rawId).None? ==> r == Err(InvalidId)
      ensures ParseId(rawId).Some? && !HasId(services, ParseId(rawId).value) ==> r == Err(NotFound)
      ensures forall k :: 0 <= k < |services| && Some(services[k].id) == ParseId(rawId) ==> r == Ok(services[k])
    {
      var id := ParseId(rawId);
      if id.None? {
        return Err(InvalidId);
      }
      var idx := FindIndex(services, id.value);
      if idx == -1 {
        return Err(NotFound);
      }
      r := Ok(services[idx]);
      forall k | 0 <= k < |services| && Some(services[k].id) == id ensures k == idx {
        UniqueId(services, nextId, k, idx);
      }
    }

    /** `PUT /services/:id` */
    method Update(rawId: string, body: Body, now: nat) returns (r: Result<Record>)
      requires Valid()
      requires || IsDescriptionInput(body.description)
               || ParseId(rawId).None? || !HasId(services, ParseId(rawId).value)
               || RejectsName(body.name) || RejectsPrice(body.price)
      modifies this
      ensures Valid() && nextId == old(nextId)
      ensures ParseId(rawId).None? ==> r == Err(InvalidId) && services == old(services)
      ensures ParseId(rawId).Some? && !HasId(old(services), ParseId(rawId).value) ==>
        r == Err(NotFound) && services == old(services)
      ensures ParseId(rawId).Some? && HasId(old(services), ParseId(rawId).value) && RejectsName(body.name) ==>
        r == Err(ValidationError("name must be non-empty string")) && services == old(services)
      ensures (ParseId(rawId).Some? && HasId(old(services), ParseId(rawId).value)
               && !RejectsName(body.name) && RejectsPrice(body.price)) ==>
        r == Err(ValidationError("price must be non-negative number")) && services == old(services)
      ensures !RejectsName(body.name) && !RejectsPrice(body.price) ==>
        forall k :: 0 <= k < |old(services)| && Some(old(services)[k].id) == ParseId(rawId) ==>
          var before := old(services)[k];
          && r.Ok?
          && services == old(services)[k := r.value]
          && r.value.id == before.id && r.value.createdAt == before.createdAt
          && r.value.updatedAt == now
          && r.value.name == (if body.name.Missing? then before.name else Trim(body.name.s))
          && r.value.price == (if body.price.Missing? then before.price else body.price.x)
          && r.value.description == (match body.description
                                     case Null => None
                                     case Str(s) => Some(Trim(s))
                                     case _ => before.description)
    {
      var id := ParseId(rawId);
      if id.None? {
        return Err(InvalidId);
      }
      var idx := FindIndex(services, id.value);
      if idx == -1 {
        return Err(NotFound);
      }
      if RejectsName(body.name) {
        return Err(ValidationError("name must be non-empty string"));
      }
      if RejectsPrice(body.price) {
        return Err(ValidationError("price must be non-negative number"));
      }
      var existing := services[idx];
      var name := if body.name.Missing? then existing.name else Trim(body.name.s);
      var description := match body.description
        case Null => None
        case Str(s) => Some(Trim(s))
        case _ => existing.description;
      var price := if body.price.Missing? then existing.price else body.price.x;
      var updated := existing.(name := name, description := description, price := price, updatedAt := now);
      ReplaceWellFormed(services, nextId, idx, updated);
      forall k | 0 <= k < |services| && Some(services[k].id) == id ensures k == idx {
        UniqueId(services, nextId, k, idx);
      }
      services := services[idx := updated];
      r := Ok(updated);
    }

    /** `DELETE /services/:id` */
    method Delete(rawId: string) returns (r: Result<Record>)
      requires Valid()
      modifies this
      ensures Valid() && nextId == old(nextId)
      ensures ParseId(rawId).None? ==> r == Err(InvalidId) && services == old(services)
      ensures ParseId(rawId).Some? && !HasId(old(services), ParseId(rawId).value) ==>
        r == Err(NotFound) && services == old(services)
      ensures forall k :: 0 <= k < |old(services)| && Some(old(services)[k].id) == ParseId(rawId) ==>
        r == Ok(old(services)[k]) && services == old(services)[..k] + old(services)[k + 1..]
      ensures r.Ok? ==> !HasId(services, r.value.id)
    {
      var id := ParseId(rawId);
      if id.None? {
        return Err(InvalidId);
      }
      var idx := FindIndex(services, id.value);
      if idx == -1 {
        return Err(NotFound);
      }
      r := Ok(services[idx]);
      RemoveWellFormed(services, nextId, idx);
      forall k | 0 <= k < |services| && Some(services[k].id) == id ensures k == idx {
        UniqueId(services, nextId, k, idx);
      }
      services := services[..idx] + services[idx + 1..];
    }
  }
}
