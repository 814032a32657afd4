/** The service that keeps the entity index, changing its tables in place
    (backend/src/main/java/com/claimguard/service/EntityService.java:65-127). */
module EntityServices {
  import opened EntityIndex
  import opened Options

  class EntityService {
    const normalizers: Normalizers
    var claims: seq<Contact>
    var entities: seq<Entity>
    var links: map<Link, string>

    constructor (normalizers: Normalizers)
      ensures this.normalizers == normalizers && Tables() == EMPTY
    {
      this.normalizers := normalizers;
      claims, entities, links := [], [], map[];
    }

    ghost function Tables(): Index
      reads this
    {
      Index(claims, entities, links)
    }

    /** Returns the id of the one entity with this type and value, which now counts one more claim. */
    method Upsert(t: EntityType, canonicalValue: string) returns (id: nat)
      modifies this`entities
      ensures entities == Upserted(old(entities), t, canonicalValue)
      ensures id == Find(old(entities), t, canonicalValue)
    {
      id := 0;
      while id < |entities| && !Is(entities[id], t, canonicalValue)
        invariant id <= |entities|
        invariant Find(entities, t, canonicalValue) == id + Find(entities[id..], t, canonicalValue)
      {
        assert entities[id..][1..] == entities[id + 1..];
        id := id + 1;
      }
      if id < |entities| {
        entities := entities[id := entities[id].(claimCount := entities[id].claimCount + 1)];
      } else {
        entities := entities + [Entity(t, canonicalValue, 1)];
      }
    }

    method SaveLink(c: nat, t: EntityType, rawValue: string, canonicalValue: string)
      modifies this`entities, this`links
      ensures Tables() == Linked(old(Tables()), c, t, rawValue, canonicalValue)
    {
      var entityId := Upsert(t, canonicalValue);
      links := links[Link(c, entityId, t) := rawValue];
    }

    /** Runs in its caller's transaction: when it fails, it fails before its first write. */
    method ResolveAndLink(c: nat) returns (ok: bool)
      requires c < |claims|
      modifies this`entities, this`links
      ensures ok <==> Resolve(normalizers, old(Tables()), c).Some?
      ensures Tables() == if ok then Resolve(normalizers, old(Tables()), c).value else old(Tables())
    {
      hide Linked;
      var claim := claims[c];
      var phone := normalizers.phone(claim.phone);
      if phone.None? { return false; }
      SaveLink(c, PHONE, claim.phone, phone.value);
      SaveLink(c, ADDRESS, claim.address, normalizers.address(claim.address));
      if claim.shop.Some? && !normalizers.blank(claim.shop.value) {
        SaveLink(c, SHOP, claim.shop.value, normalizers.shop(claim.shop.value));
      }
      ok := true;
    }

    /** The part of claim creation that concerns the index; a failure rolls the claim back. */
    method CreateClaim(claim: Contact) returns (ok: bool)
      modifies this
      ensures Tables() == Created(normalizers, old(Tables()), claim)
      ensures ok <==> normalizers.phone(claim.phone).Some?
    {
      var before := claims;
      claims := claims + [claim];
      ok := ResolveAndLink(|before|);
      if !ok { claims := before; }
    }

    /** Bulk loading stores a claim and no links, so the next backlog pass finds it. */
    method LoadClaim(claim: Contact)
      modifies this`claims
      ensures Tables() == Do(normalizers, old(Tables()), Load(claim))
      ensures Inv(normalizers, old(Tables())) ==>
        Inv(normalizers, Tables()) && forall ids :: Unresolved(Tables(), ids) ==> |old(claims)| in ids
    {
      if Inv(normalizers, Tables()) { StoringKeepsInv(normalizers, Tables(), claim); }
      claims := claims + [claim];
    }

    method FindIdsWithoutEntityLinks() returns (ids: seq<nat>)
      ensures Unresolved(Tables(), ids)
    {
      ids := [];
      var c := 0;
      while c < |claims|
        invariant 0 <= c <= |claims|
        invariant forall d: nat :: d in ids <==> d < c && !HasLinks(Tables(), d)
        invariant forall i :: 0 <= i < |ids| ==> ids[i] < c
        invariant forall i, j :: 0 <= i < j < |ids| ==> ids[i] != ids[j]
      {
        if !(exists row :: row in links && row.claim == c) { ids := ids + [c]; }
        c := c + 1;
      }
    }

    /** One transaction per claim; a claim that cannot be linked ends the pass with an exception,
        shown as None, and the claims linked before it stay linked. */
    method ResolveBacklog() returns (count: Option<nat>, ghost ids: seq<nat>)
      modifies this`entities, this`links
      ensures Unresolved(old(Tables()), ids)
      ensures Tables() == Pass(normalizers, old(Tables()), ids).0
      ensures count == if Pass(normalizers, old(Tables()), ids).1 then Some(|ids|) else None
    {
      hide Resolve, Pass, Unresolved;
      var unresolved := FindIdsWithoutEntityLinks();
      ids := unresolved;
      assert ids[0..] == ids;
      var k := 0;
      while k < |unresolved|
        invariant 0 <= k <= |unresolved| && ids == unresolved
        invariant Pass(normalizers, old(Tables()), ids) == Pass(normalizers, Tables(), ids[k..])
      {
        PassFrom(normalizers, Tables(), ids, k);
        if unresolved[k] < |claims| {
          var ok := ResolveAndLink(unresolved[k]);
          if !ok { return None, ids; }
        }
        k := k + 1;
      }
      assert ids[k..] == [];
      PassOverNothing(normalizers, Tables());
      count := Some(|unresolved|);
    }

    /** Every claim filed with the entity's phone, address or shop, however it was written: on
        tables the service keeps these are the linked claims with its canonical value, and as many
        as its count says. None when there is no such entity. */
    method ClaimsForEntity(e: nat) returns (found: Option<set<nat>>)
      ensures found.Some? <==> e < |entities|
      ensures found.Some? && Inv(normalizers, Tables()) ==> AreSharers(normalizers, Tables(), e, found.value)
      ensures found.Some? ==> forall c :: c in found.value <==> exists t :: Link(c, e, t) in links
    {
      if e >= |entities| { return None; }
      found := Some(set row | row in links && row.entity == e :: row.claim);
      assert found.value == ClaimsOf(Tables(), e);
      if Inv(normalizers, Tables()) { LinkedAreSharers(normalizers, Tables(), e); }
      forall c ensures c in found.value <==> exists t :: Link(c, e, t) in links {
        if row :| row in links && row.entity == e && row.claim == c { assert row == Link(c, e, row.role); }
      }
    }
  }
}
