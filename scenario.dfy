/**
 * A client of the registry that replays a session against a fresh server:
 * what it asserts follows from the handlers' contracts alone.
 */
module Scenario {
  import opened Wrappers
  import opened Text
  import opened Validation
  import opened Catalog
  import opened Registry

  /**
   * POST {name, price}, then PUT /services/2 {price: newPrice}, for any
   * trimmed non-empty name and any non-negative prices.
   */
  method CreateThenUpdate(name: string, price: real, newPrice: real)
    requires name != [] && IsTrimmed(name)
    requires 0.0 <= price && 0.0 <= newPrice
  {
    TrimTrimmed(name);
    var reg := new Registry(0);
    var created := reg.Create(Body(Str(name), Missing, Num(price)), 1);
    assert created.Ok? && created.value.id == 2 && created.value.name == name;
    assert created.value.description == None && created.value.price == price;

    var two := DecimalString(2);  // the path segment "2"
    ParseIdDecimal(2);
    assert reg.services[1].id == 2;
    var updated := reg.Update(two, Body(Missing, Missing, Num(newPrice)), 2);
    assert updated.Ok? && updated.value.price == newPrice && updated.value.name == name;
    assert updated.value.createdAt == 1 && updated.value.updatedAt == 2;
  }

  /**
   * DELETE /services/1, GET /services/1, then POST: the freed id 1 is not
   * handed out again.
   */
  method DeleteThenCreate(name: string, price: real)
    requires name != [] && IsTrimmed(name)
    requires 0.0 <= price
  {
    TrimTrimmed(name);
    var reg := new Registry(0);
    var seed := reg.services[0];
    var one := DecimalString(1);  // the path segment "1"
    ParseIdDecimal(1);
    var deleted := reg.Delete(one);
    assert deleted == Ok(seed) && reg.services == [];
    var found := reg.Get(one);
    assert found == Err(NotFound);

    var again := reg.Create(Body(Str(name), Null, Num(price)), 3);
    assert again.Ok? && again.value.id == 2 && again.value.description == None;
  }

  /**
   * A blank name is refused before the price or the description is looked at,
   * even when the description is not a string; nothing changes.
   */
  method RejectBlankName()
  {
    var reg := new Registry(0);
    var blank := "   ";
    assert forall i :: 0 <= i < |blank| ==> IsSpace(blank[i]);
    var noName := reg.Create(Body(Str(blank), Other, Num(-5.0)), 1);
    assert noName == Err(ValidationError("name is required"));
    assert reg.nextId == 2 && |reg.services| == 1;
  }

  /** A negative or non-finite price is refused and the id counter does not move. */
  method RejectBadPrice(name: string, price: real)
    requires name != [] && IsTrimmed(name)
    requires price < 0.0
  {
    TrimTrimmed(name);
    var reg := new Registry(0);
    var negative := reg.Create(Body(Str(name), Missing, Num(price)), 1);
    assert negative == Err(ValidationError("price must be a non-negative number"));
    var nan := reg.Create(Body(Str(name), Missing, NonFinite), 1);
    assert nan.Err? && reg.nextId == 2;
  }

  /** `0`, `-1` and `abc` are not ids. */
  method RejectInvalidIds()
  {
    var reg := new Registry(0);
    ParseIdZero("0");
    var zero := reg.Get("0");
    assert zero == Err(InvalidId);
    ParseIdNegative("1");
    var negative := reg.Get("-1");
    assert negative == Err(InvalidId);
    ParseIdForeignChar("abc", 0);
    var word := reg.Get("abc");
    assert word == Err(InvalidId);
  }
}
