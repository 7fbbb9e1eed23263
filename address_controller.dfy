/**
 * Delivery addresses (Controllers/AddressController.cs): one address per customer and address
 * type, where the type is compared ordinally (database collation is not modelled).
 */
module AddressController {
  import opened Wrappers
  import opened Linq
  import opened Http
  import opened Models
  import opened AppDb

  function SlotOf(uid: int, addressType: string): Address -> bool {
    (a: Address) => a.userId == uid && a.addressType == addressType
  }

  /** The seven fields the upsert overwrites, taken from the body; key, owner and type stay. */
  function Overwritten(a: Address, body: Address): Address {
    a.(name := body.name, phoneNumber := body.phoneNumber, pincode := body.pincode,
       locality := body.locality, addressLine := body.addressLine, city := body.city,
       landmark := body.landmark)
  }

  /**
   * `AddAddress` (Controllers/AddressController.cs:18-40): the caller's address of the body's
   * type is overwritten when there is one; otherwise the body is inserted as the caller's, under
   * a fresh id. The answer is 200 either way.
   */
  function AddAddressSpec(t: Tables, uid: nat, body: Address): (r: Tables)
    ensures |r.addresses| >= |t.addresses|
  {
    match FirstIndex(t.addresses, SlotOf(uid, body.addressType))
    case Some(k) => t.(addresses := t.addresses[k := Overwritten(t.addresses[k], body)])
    case None =>
      t.(addresses := t.addresses + [body.(addressId := t.nextAddressId, userId := uid)],
         nextAddressId := t.nextAddressId + 1)
  }

  /** `SaveChanges` on the address table. */
  method SetAddresses(ctx: AppDbContext, rows: seq<Address>, next: nat)
    modifies ctx
    ensures ctx.Snapshot() == old(ctx.Snapshot()).(addresses := rows, nextAddressId := next)
  {
    ctx.addresses, ctx.nextAddressId := rows, next;
  }

  method AddAddress(ctx: AppDbContext, userId: nat, body: Address) returns (status: Status)
    requires ctx.Valid()
    modifies ctx
    ensures status == Ok && ctx.Snapshot() == AddAddressSpec(old(ctx.Snapshot()), userId, body)
    ensures ctx.Valid()
  {
    var t0 := ctx.Snapshot();
    var rows, next := ctx.addresses, ctx.nextAddressId;
    AddAddressValid(t0, userId, body);
    var existing := FirstIndex(rows, SlotOf(userId, body.addressType));
    if existing.Some? {
      var k := existing.value;
      SetAddresses(ctx, rows[k := Overwritten(rows[k], body)], next);
    } else {
      SetAddresses(ctx, rows + [body.(addressId := next, userId := userId)], next + 1);
    }
    return Ok;
  }

  lemma AddAddressValid(t: Tables, uid: nat, body: Address)
    requires ValidTables(t)
    ensures ValidTables(AddAddressSpec(t, uid, body))
  {
    var r := AddAddressSpec(t, uid, body);
    match FirstIndex(t.addresses, SlotOf(uid, body.addressType))
    case Some(k) =>
      UpdateKeyed(t.addresses, AddressKey, t.nextAddressId, k, Overwritten(t.addresses[k], body));
      forall id | HasAddress(t.addresses, id) ensures HasAddress(r.addresses, id) {
        var x :| x in t.addresses && x.addressId == id;
        var j :| 0 <= j < |t.addresses| && t.addresses[j] == x;
        assert r.addresses[j].addressId == id;
      }
    case None =>
      AppendKeyed(t.addresses, AddressKey, t.nextAddressId, body.(addressId := t.nextAddressId, userId := uid));
      forall id | HasAddress(t.addresses, id) ensures HasAddress(r.addresses, id) {
        var x :| x in t.addresses && x.addressId == id;
        assert x in r.addresses;
      }
  }

  /** With one address per slot, the lookup finds exactly address `k` of that slot. */
  lemma SlotIndex(t: Tables, k: nat)
    requires ValidTables(t) && AddressesUnique(t) && k < |t.addresses|
    ensures FirstIndex(t.addresses, SlotOf(t.addresses[k].userId, t.addresses[k].addressType)) == Some(k)
  {
    UniqueOnDistinct(t.addresses, AddressSlot, AddressKey);
    assert SlotOf(t.addresses[k].userId, t.addresses[k].addressType)(t.addresses[k]);
  }

  /** With an address of that type, exactly its seven fields are overwritten. */
  lemma AddAddressOverwrites(t: Tables, uid: nat, body: Address, k: nat)
    requires ValidTables(t) && AddressesUnique(t) && k < |t.addresses|
    requires t.addresses[k].userId == uid && t.addresses[k].addressType == body.addressType
    ensures var r := AddAddressSpec(t, uid, body);
      var a, e := t.addresses[k], r.addresses[k];
      |r.addresses| == |t.addresses| && r == t.(addresses := t.addresses[k := e])
      && e.addressId == a.addressId && e.userId == a.userId && e.addressType == a.addressType
      && e.name == body.name && e.phoneNumber == body.phoneNumber && e.pincode == body.pincode
      && e.locality == body.locality && e.addressLine == body.addressLine && e.city == body.city
      && e.landmark == body.landmark
  {
    SlotIndex(t, k);
  }

  /** Without one, the body is appended as the caller's, whatever owner it named. */
  lemma AddAddressAppends(t: Tables, uid: nat, body: Address)
    requires forall a :: a in t.addresses ==> a.userId != uid || a.addressType != body.addressType
    ensures var r := AddAddressSpec(t, uid, body);
      var e := r.addresses[|t.addresses|];
      |r.addresses| == |t.addresses| + 1
      && r == t.(addresses := t.addresses + [e], nextAddressId := t.nextAddressId + 1)
      && e == body.(addressId := t.nextAddressId, userId := uid)
  {
    assert forall j :: 0 <= j < |t.addresses| ==> t.addresses[j] in t.addresses;
  }

  /** The upsert keeps "one address per (customer, exact type)" and leaves other customers'
    * addresses as they were. */
  lemma AddAddressKeepsSlotsUnique(t: Tables, uid: nat, body: Address)
    requires ValidTables(t) && AddressesUnique(t)
    ensures var r := AddAddressSpec(t, uid, body);
      AddressesUnique(r)
      && forall a: Address :: a.userId != uid ==> (a in r.addresses <==> a in t.addresses)
  {
    var r := AddAddressSpec(t, uid, body);
    UniqueOnDistinct(t.addresses, AddressSlot, AddressKey);
    match FirstIndex(t.addresses, SlotOf(uid, body.addressType))
    case Some(k) =>
      assert DistinctOn(r.addresses, AddressSlot);
      DistinctOnUnique(r.addresses, AddressSlot);
      forall a: Address | a.userId != uid ensures a in r.addresses <==> a in t.addresses {
        if a in t.addresses {
          var j :| 0 <= j < |t.addresses| && t.addresses[j] == a;
          assert r.addresses[j] == a;
        }
        if a in r.addresses {
          var j :| 0 <= j < |r.addresses| && r.addresses[j] == a;
          assert t.addresses[j] == a;
        }
      }
    case None =>
      var e := body.(addressId := t.nextAddressId, userId := uid);
      forall j | 0 <= j < |t.addresses| ensures AddressSlot(t.addresses[j]) != AddressSlot(e) {
        assert !SlotOf(uid, body.addressType)(t.addresses[j]);
      }
      assert DistinctOn(r.addresses, AddressSlot);
      DistinctOnUnique(r.addresses, AddressSlot);
  }

  // ---------------------------------------------------------------- GetAddressByType

  /** `GetAddressByType` (Controllers/AddressController.cs:45-51): the caller's address of exactly
    * that type, or none (404). */
  function GetAddressByType(t: Tables, uid: int, addressType: string): (r: Option<Address>)
    ensures r.None? <==> forall a :: a in t.addresses ==> a.userId != uid || a.addressType != addressType
    ensures r.Some? ==> r.value in t.addresses && r.value.userId == uid && r.value.addressType == addressType
  {
    match FirstIndex(t.addresses, SlotOf(uid, addressType))
    case Some(k) => Some(t.addresses[k])
    case None =>
      assert forall a :: a in t.addresses ==> a.userId != uid || a.addressType != addressType by {
        forall a | a in t.addresses ensures a.userId != uid || a.addressType != addressType {
          var j :| 0 <= j < |t.addresses| && t.addresses[j] == a;
          assert !SlotOf(uid, addressType)(t.addresses[j]);
        }
      }
      None
  }

  function GetAddressStatus(t: Tables, uid: int, addressType: string): (s: Status)
    ensures s == NotFound <==> GetAddressByType(t, uid, addressType).None?
    ensures s == Ok <==> GetAddressByType(t, uid, addressType).Some?
  {
    if GetAddressByType(t, uid, addressType).None? then NotFound else Ok
  }

  /** With one address per slot, the lookup returns the address the upsert last wrote. */
  lemma GetAddressAfterAdd(t: Tables, uid: nat, body: Address)
    requires ValidTables(t) && AddressesUnique(t)
    ensures var r := AddAddressSpec(t, uid, body);
      var a := GetAddressByType(r, uid, body.addressType);
      a.Some? && a.value.name == body.name && a.value.phoneNumber == body.phoneNumber
      && a.value.pincode == body.pincode && a.value.locality == body.locality
      && a.value.addressLine == body.addressLine && a.value.city == body.city
      && a.value.landmark == body.landmark
  {
    var r := AddAddressSpec(t, uid, body);
    AddAddressValid(t, uid, body);
    AddAddressKeepsSlotsUnique(t, uid, body);
    match FirstIndex(t.addresses, SlotOf(uid, body.addressType))
    case Some(k) =>
      AddAddressOverwrites(t, uid, body, k);
      SlotIndex(r, k);
    case None =>
      AddAddressAppends(t, uid, body);
      SlotIndex(r, |t.addresses|);
  }
}
