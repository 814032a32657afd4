/** The entity index: which claims share a phone, an address or a repair shop
    (backend/src/main/java/com/claimguard/service/EntityService.java:65-127,
    backend/src/main/java/com/claimguard/repository/ResolvedEntityRepository.java:25-35). */
module EntityIndex {
  import opened Options

  datatype EntityType = PHONE | ADDRESS | SHOP

  datatype Contact = Contact(phone: string, address: string, shop: Option<string>)

  datatype Entity = Entity(entityType: EntityType, canonical: string, claimCount: nat)

  /** The key of a link row. Each entity type has one role, so the type stands for the role. */
  datatype Link = Link(claim: nat, entity: nat, role: EntityType)

  /** The three tables. A claim's and an entity's id is its position; a link row holds the raw value. */
  datatype Index = Index(claims: seq<Contact>, entities: seq<Entity>, links: map<Link, string>)

  const EMPTY: Index := Index([], [], map[])

  /** The normalizers. Only a phone number can fail to parse. */
  datatype Normalizers = Normalizers(
    phone: string -> Option<string>, address: string -> string, shop: string -> string, blank: string -> bool)

  function Raw(claim: Contact, t: EntityType): string {
    match t
    case PHONE => claim.phone
    case ADDRESS => claim.address
    case SHOP => if claim.shop.Some? then claim.shop.value else ""
  }

  /** The canonical value a claim has for a type, if any. */
  function Value(n: Normalizers, claim: Contact, t: EntityType): Option<string> {
    match t
    case PHONE => n.phone(claim.phone)
    case ADDRESS => Some(n.address(claim.address))
    case SHOP =>
      if claim.shop.Some? && !n.blank(claim.shop.value) then Some(n.shop(claim.shop.value)) else None
  }

  // ----- the operations -----

  predicate Is(e: Entity, t: EntityType, v: string) { e.entityType == t && e.canonical == v }

  function Find(entities: seq<Entity>, t: EntityType, v: string): (i: nat)
    ensures i <= |entities|
    ensures i < |entities| ==> Is(entities[i], t, v)
    ensures forall k :: 0 <= k < i ==> !Is(entities[k], t, v)
  {
    if entities == [] || Is(entities[0], t, v) then 0 else 1 + Find(entities[1..], t, v)
  }

  /** Insert a row counting one claim, or, on a conflict, count one more. */
  function Upserted(entities: seq<Entity>, t: EntityType, v: string): seq<Entity> {
    var i := Find(entities, t, v);
    if i < |entities| then entities[i := entities[i].(claimCount := entities[i].claimCount + 1)]
    else entities + [Entity(t, v, 1)]
  }

  function Linked(db: Index, c: nat, t: EntityType, raw: string, v: string): Index {
    var row := Link(c, Find(db.entities, t, v), t);
    db.(entities := Upserted(db.entities, t, v), links := db.links[row := raw])
  }

  /** The transaction that links one claim; None when it rolls back. */
  function Resolve(n: Normalizers, db: Index, c: nat): Option<Index>
    requires c < |db.claims|
  {
    var claim := db.claims[c];
    match n.phone(claim.phone)
    case None => None
    case Some(phone) =>
      var db1 := Linked(db, c, PHONE, claim.phone, phone);
      var db2 := Linked(db1, c, ADDRESS, claim.address, n.address(claim.address));
      Some(
        if claim.shop.Some? && !n.blank(claim.shop.value)
        then Linked(db2, c, SHOP, claim.shop.value, n.shop(claim.shop.value))
        else db2)
  }

  /** Creating a claim stores and links it, or, when it cannot be linked, leaves nothing. */
  function Created(n: Normalizers, db: Index, claim: Contact): Index {
    var stored := db.(claims := db.claims + [claim]);
    match Resolve(n, stored, |db.claims|)
    case None => db
    case Some(after) => after
  }

  /** One transaction per claim of the list; the first that fails ends the pass. */
  function Pass(n: Normalizers, db: Index, ids: seq<nat>): (Index, bool)
    decreases |ids|
  {
    if ids == [] then (db, true)
    else if ids[0] >= |db.claims| then Pass(n, db, ids[1..])
    else match Resolve(n, db, ids[0])
      case None => (db, false)
      case Some(after) => Pass(n, after, ids[1..])
  }

  lemma PassFrom(n: Normalizers, db: Index, ids: seq<nat>, k: nat)
    requires k < |ids|
    ensures Pass(n, db, ids[k..]) ==
      if ids[k] >= |db.claims| then Pass(n, db, ids[k + 1..])
      else if Resolve(n, db, ids[k]).None? then (db, false)
      else Pass(n, Resolve(n, db, ids[k]).value, ids[k + 1..])
  {
    hide Resolve;
    assert ids[k..][1..] == ids[k + 1..];
  }

  lemma PassOverNothing(n: Normalizers, db: Index)
    ensures Pass(n, db, []) == (db, true)
  {
  }

  predicate HasLinks(db: Index, c: nat) { exists row :: row in db.links && row.claim == c }

  /** What the backlog query may return: each claim without links once, in any order. */
  ghost predicate Unresolved(db: Index, ids: seq<nat>) {
    && (forall c: nat :: c in ids <==> c < |db.claims| && !HasLinks(db, c))
    && (forall i, j :: 0 <= i < j < |ids| ==> ids[i] != ids[j])
  }

  /** A claim arrives through the service, or is bulk-loaded; a backlog pass runs. */
  datatype Action = Create(claim: Contact) | Load(claim: Contact) | Backlog(ids: seq<nat>)

  ghost predicate Possible(db: Index, a: Action) { a.Backlog? ==> Unresolved(db, a.ids) }

  function Do(n: Normalizers, db: Index, a: Action): Index {
    match a
    case Create(claim) => Created(n, db, claim)
    case Load(claim) => db.(claims := db.claims + [claim])
    case Backlog(ids) => Pass(n, db, ids).0
  }

  /** The states serial runs reach. */
  ghost predicate Reached(n: Normalizers, actions: seq<Action>, db: Index) {
    if actions == [] then db == EMPTY
    else
      var last := actions[|actions| - 1];
      exists before ::
        Reached(n, actions[..|actions| - 1], before) && Possible(before, last) && db == Do(n, before, last)
  }

  // ----- the invariant -----

  function RowsOf(links: map<Link, string>, e: nat): set<Link> {
    set row | row in links && row.entity == e
  }

  /** A link row joins a claim to the entity of its canonical value, and keeps the raw one. */
  ghost predicate RowFits(n: Normalizers, db: Index, row: Link) {
    && row.claim < |db.claims| && row.entity < |db.entities|
    && db.entities[row.entity].entityType == row.role
    && Value(n, db.claims[row.claim], row.role) == Some(db.entities[row.entity].canonical)
  }

  ghost predicate Counts(db: Index) {
    forall e :: 0 <= e < |db.entities| ==> db.entities[e].claimCount == |RowsOf(db.links, e)|
  }

  ghost predicate Unique(entities: seq<Entity>) {
    forall i, j :: 0 <= i < j < |entities| ==> !Is(entities[j], entities[i].entityType, entities[i].canonical)
  }

  ghost predicate Sane(n: Normalizers, db: Index) {
    && (forall row :: row in db.links ==> RowFits(n, db, row) && db.links[row] == Raw(db.claims[row.claim], row.role))
    && Unique(db.entities)
    && Counts(db)
  }

  /** The claim has a link row for this type. */
  ghost predicate HasRow(db: Index, c: nat, t: EntityType) {
    exists e: nat :: Link(c, e, t) in db.links
  }

  ghost predicate Complete(n: Normalizers, db: Index) {
    forall c, t :: 0 <= c < |db.claims| && HasLinks(db, c) && Value(n, db.claims[c], t).Some? ==> HasRow(db, c, t)
  }

  ghost predicate Inv(n: Normalizers, db: Index) { Sane(n, db) && Complete(n, db) }

  lemma UpsertedKeeps(entities: seq<Entity>, t: EntityType, v: string)
    requires Unique(entities)
    ensures var i := Find(entities, t, v); var after := Upserted(entities, t, v);
      && Unique(after) && |entities| <= |after| && i < |after| && Is(after[i], t, v)
      && (forall k :: 0 <= k < |entities| ==> Is(after[k], entities[k].entityType, entities[k].canonical))
      && (forall k :: 0 <= k < |after| && k != i ==> k < |entities| && after[k] == entities[k])
      && after[i].claimCount == (if i < |entities| then entities[i].claimCount else 0) + 1
  {
  }

  lemma NewRow(links: map<Link, string>, row: Link, raw: string, e: nat)
    requires row !in links
    ensures |RowsOf(links[row := raw], e)| == |RowsOf(links, e)| + (if e == row.entity then 1 else 0)
  {
    assert RowsOf(links[row := raw], e) == RowsOf(links, e) + (if e == row.entity then {row} else {});
  }

  lemma LinkedKeepsSane(n: Normalizers, db: Index, c: nat, t: EntityType, v: string)
    requires Sane(n, db) && c < |db.claims| && !HasRow(db, c, t)
    requires Value(n, db.claims[c], t) == Some(v)
    ensures var after := Linked(db, c, t, Raw(db.claims[c], t), v);
      && Sane(n, after) && after.claims == db.claims
      && after.links.Keys == db.links.Keys + {Link(c, Find(db.entities, t, v), t)}
  {
    hide Value, Raw;
    var raw := Raw(db.claims[c], t);
    var i := Find(db.entities, t, v);
    var row := Link(c, i, t);
    var after := Linked(db, c, t, raw, v);
    UpsertedKeeps(db.entities, t, v);
    assert row !in db.links;
    forall e | 0 <= e < |after.entities| ensures after.entities[e].claimCount == |RowsOf(after.links, e)| {
      NewRow(db.links, row, raw, e);
      if e >= |db.entities| { NoRows(n, db, e); }
    }
    forall other | other in after.links
      ensures RowFits(n, after, other) && after.links[other] == Raw(after.claims[other.claim], other.role)
    {
      if other != row { assert RowFits(n, db, other); }
    }
  }

  lemma NoRows(n: Normalizers, db: Index, e: nat)
    requires Sane(n, db) && e >= |db.entities|
    ensures RowsOf(db.links, e) == {}
  {
    forall row | row in db.links ensures row.entity != e { assert RowFits(n, db, row); }
  }

  /** While claim c is being linked, starting from db: its rows so far are for the types in `done`. */
  ghost predicate Linking(n: Normalizers, db: Index, now: Index, c: nat, done: set<EntityType>) {
    && Sane(n, now) && now.claims == db.claims
    && db.links.Keys <= now.links.Keys
    && (forall row :: row in now.links && row !in db.links ==> row.claim == c)
    && (forall t :: HasRow(now, c, t) <==> t in done)
  }

  lemma LinkStep(n: Normalizers, db: Index, now: Index, c: nat, done: set<EntityType>, t: EntityType, v: string)
    requires c < |db.claims| && Linking(n, db, now, c, done) && t !in done && Value(n, db.claims[c], t) == Some(v)
    ensures Linking(n, db, Linked(now, c, t, Raw(db.claims[c], t), v), c, done + {t})
  {
    hide Sane, Value, Raw, Upserted;
    LinkedKeepsSane(n, now, c, t, v);
    var after := Linked(now, c, t, Raw(db.claims[c], t), v);
    var e := Find(now.entities, t, v);
    forall u ensures HasRow(after, c, u) <==> u in done + {t} {
      if HasRow(now, c, u) {
        var f: nat :| Link(c, f, u) in now.links;
        assert Link(c, f, u) in after.links;
      }
      assert Link(c, e, t) in after.links;
    }
  }

  /** What linking a claim does to the rows of the claim and of the others. */
  ghost predicate AddsRowsOf(n: Normalizers, db: Index, after: Index, c: nat)
    requires c < |db.claims|
  {
    && db.links.Keys <= after.links.Keys
    && (forall row :: row in after.links && row !in db.links ==> row.claim == c)
    && (forall t :: Value(n, db.claims[c], t).Some? ==> HasRow(after, c, t))
  }

  lemma LinkingStarts(n: Normalizers, db: Index, c: nat)
    requires Sane(n, db) && !HasLinks(db, c)
    ensures Linking(n, db, db, c, {})
  {
    hide Sane;
  }

  lemma LinkingEnds(n: Normalizers, db: Index, after: Index, c: nat, done: set<EntityType>)
    requires c < |db.claims| && Linking(n, db, after, c, done)
    requires forall t :: Value(n, db.claims[c], t).Some? ==> t in done
    ensures Sane(n, after) && after.claims == db.claims && AddsRowsOf(n, db, after, c)
  {
    hide Sane, Value;
  }

  lemma ResolveAddsRows(n: Normalizers, db: Index, c: nat)
    requires Sane(n, db) && c < |db.claims| && !HasLinks(db, c) && n.phone(db.claims[c].phone).Some?
    ensures Resolve(n, db, c).Some?
    ensures var after := Resolve(n, db, c).value;
      Sane(n, after) && after.claims == db.claims && AddsRowsOf(n, db, after, c)
  {
    hide Linking, Linked, Sane, HasLinks, AddsRowsOf;
    var claim := db.claims[c];
    LinkingStarts(n, db, c);
    LinkStep(n, db, db, c, {}, PHONE, n.phone(claim.phone).value);
    var db1 := Linked(db, c, PHONE, claim.phone, n.phone(claim.phone).value);
    LinkStep(n, db, db1, c, {} + {PHONE}, ADDRESS, n.address(claim.address));
    var db2 := Linked(db1, c, ADDRESS, claim.address, n.address(claim.address));
    if claim.shop.Some? && !n.blank(claim.shop.value) {
      LinkStep(n, db, db2, c, {} + {PHONE} + {ADDRESS}, SHOP, n.shop(claim.shop.value));
      LinkingEnds(n, db, Resolve(n, db, c).value, c, {} + {PHONE} + {ADDRESS} + {SHOP});
    } else {
      LinkingEnds(n, db, Resolve(n, db, c).value, c, {} + {PHONE} + {ADDRESS});
    }
  }

  /** Linking a claim that has no links keeps the invariant, and gives that claim its rows. */
  lemma ResolveKeepsInv(n: Normalizers, db: Index, c: nat)
    requires Inv(n, db) && c < |db.claims| && !HasLinks(db, c)
    ensures Resolve(n, db, c).Some? <==> n.phone(db.claims[c].phone).Some?
    ensures Resolve(n, db, c).Some? ==>
      var after := Resolve(n, db, c).value;
      && Inv(n, after) && after.claims == db.claims && HasLinks(after, c)
      && forall d: nat :: d != c ==> (HasLinks(after, d) <==> HasLinks(db, d))
  {
    if n.phone(db.claims[c].phone).Some? {
      ResolveAddsRows(n, db, c);
      hide Linked, Sane, Resolve;
      var after := Resolve(n, db, c).value;
      assert HasRow(after, c, PHONE);
      OnlyItsRows(n, db, after, c);
    }
  }

  lemma OnlyItsRows(n: Normalizers, db: Index, after: Index, c: nat)
    requires after.claims == db.claims && c < |db.claims| && Complete(n, db) && AddsRowsOf(n, db, after, c)
    ensures Complete(n, after)
    ensures forall d: nat :: d != c ==> (HasLinks(after, d) <==> HasLinks(db, d))
  {
    hide Value;
    forall d: nat | d != c ensures HasLinks(after, d) <==> HasLinks(db, d) {
      if HasLinks(db, d) {
        var row :| row in db.links && row.claim == d;
        assert row in after.links;
      }
    }
    forall d, t | 0 <= d < |db.claims| && HasLinks(after, d) && Value(n, db.claims[d], t).Some?
      ensures HasRow(after, d, t)
    {
      if d != c {
        assert HasLinks(db, d) && HasRow(db, d, t);
        var e: nat :| Link(d, e, t) in db.links;
        assert Link(d, e, t) in after.links;
      }
    }
  }

  lemma StoringKeepsSane(n: Normalizers, db: Index, claim: Contact)
    requires Sane(n, db)
    ensures Sane(n, db.(claims := db.claims + [claim]))
    ensures forall row :: row in db.links ==> row.claim < |db.claims|
  {
    hide Value, Raw, Unique, Counts;
    var after := db.(claims := db.claims + [claim]);
    CountsIgnoreClaims(db, after);
    forall row | row in after.links
      ensures RowFits(n, after, row) && after.links[row] == Raw(after.claims[row.claim], row.role)
    {
      assert RowFits(n, db, row);
      assert after.claims[row.claim] == db.claims[row.claim];
    }
  }

  lemma CountsIgnoreClaims(db: Index, after: Index)
    requires Counts(db) && after.entities == db.entities && after.links == db.links
    ensures Counts(after)
  {
  }

  lemma StoringKeepsInv(n: Normalizers, db: Index, claim: Contact)
    requires Inv(n, db)
    ensures Inv(n, db.(claims := db.claims + [claim])) && !HasLinks(db.(claims := db.claims + [claim]), |db.claims|)
  {
    hide Value, Sane;
    StoringKeepsSane(n, db, claim);
    var after := db.(claims := db.claims + [claim]);
    forall c, t | 0 <= c < |after.claims| && HasLinks(after, c) && Value(n, after.claims[c], t).Some?
      ensures HasRow(after, c, t)
    {
      assert HasLinks(db, c) && after.claims[c] == db.claims[c];
      assert HasRow(db, c, t);
    }
  }

  /** A pass keeps the invariant whether or not it completes; it completes exactly when every
      listed claim's phone number parses, and then every listed claim has its links. */
  lemma {:induction false} PassResolves(n: Normalizers, db: Index, ids: seq<nat>)
    requires Inv(n, db)
    requires forall i :: 0 <= i < |ids| ==> ids[i] < |db.claims| && !HasLinks(db, ids[i])
    requires forall i, j :: 0 <= i < j < |ids| ==> ids[i] != ids[j]
    ensures Inv(n, Pass(n, db, ids).0) && Pass(n, db, ids).0.claims == db.claims
    ensures Pass(n, db, ids).1 <==> forall i :: 0 <= i < |ids| ==> n.phone(db.claims[ids[i]].phone).Some?
    ensures forall c: nat :: HasLinks(db, c) ==> HasLinks(Pass(n, db, ids).0, c)
    ensures Pass(n, db, ids).1 ==> forall i :: 0 <= i < |ids| ==> HasLinks(Pass(n, db, ids).0, ids[i])
    decreases |ids|
  {
    hide HasLinks, Inv, Resolve;
    if ids != [] {
      ResolveKeepsInv(n, db, ids[0]);
      if Resolve(n, db, ids[0]).Some? {
        var after := Resolve(n, db, ids[0]).value;
        var rest := ids[1..];
        forall i | 0 <= i < |rest| ensures rest[i] < |after.claims| && !HasLinks(after, rest[i]) {
          assert rest[i] == ids[i + 1] && ids[i + 1] != ids[0];
        }
        PassResolves(n, after, rest);
        forall i | 0 <= i < |ids| && Pass(n, db, ids).1
          ensures HasLinks(Pass(n, db, ids).0, ids[i]) && n.phone(db.claims[ids[i]].phone).Some?
        {
          if i > 0 { assert rest[i - 1] == ids[i]; }
        }
        if forall i :: 0 <= i < |ids| ==> n.phone(db.claims[ids[i]].phone).Some? {
          forall i | 0 <= i < |rest| ensures n.phone(after.claims[rest[i]].phone).Some? {
            assert rest[i] == ids[i + 1];
          }
        }
      }
    }
  }

  lemma DoKeepsInv(n: Normalizers, db: Index, a: Action)
    requires Inv(n, db) && Possible(db, a)
    ensures Inv(n, Do(n, db, a))
  {
    hide Inv, Resolve;
    match a
    case Create(claim) =>
      StoringKeepsInv(n, db, claim);
      ResolveKeepsInv(n, db.(claims := db.claims + [claim]), |db.claims|);
    case Load(claim) =>
      StoringKeepsInv(n, db, claim);
    case Backlog(ids) =>
      assert forall i :: 0 <= i < |ids| ==> ids[i] in ids;
      PassResolves(n, db, ids);
  }

  /** Over every serial run of claim creation, bulk loads and backlog passes, aborted ones included,
      the invariant holds: an entity's claim count is its number of link rows, entities are unique
      per type and canonical value, every link row keeps its claim's raw value and joins it to its
      canonical one, and a claim is linked for all of its values or for none. */
  lemma {:induction false} RunKeepsInv(n: Normalizers, actions: seq<Action>, db: Index)
    requires Reached(n, actions, db)
    ensures Inv(n, db)
  {
    if actions == [] {
      assert RowsOf(EMPTY.links, 0) == {};
    } else {
      var last := actions[|actions| - 1];
      var before :| Reached(n, actions[..|actions| - 1], before) && Possible(before, last) && db == Do(n, before, last);
      RunKeepsInv(n, actions[..|actions| - 1], before);
      DoKeepsInv(n, before, last);
    }
  }

  // ----- what the index says -----

  /** What a link row says, role by role: which normalizer made the entity's value, from which of the
      claim's fields, and which field it keeps. */
  lemma LinkSays(n: Normalizers, actions: seq<Action>, db: Index, row: Link)
    requires Reached(n, actions, db) && row in db.links
    ensures row.claim < |db.claims| && row.entity < |db.entities|
    ensures var claim, e, raw := db.claims[row.claim], db.entities[row.entity], db.links[row];
      && e.entityType == row.role
      && (row.role == PHONE ==> raw == claim.phone && n.phone(raw) == Some(e.canonical))
      && (row.role == ADDRESS ==> raw == claim.address && n.address(raw) == e.canonical)
      && (row.role == SHOP ==> claim.shop == Some(raw) && !n.blank(raw) && n.shop(raw) == e.canonical)
  {
    hide Reached;
    RunKeepsInv(n, actions, db);
    assert RowFits(n, db, row);
  }

  /** And which rows a linked claim has: a phone and an address always, a shop when one is named. */
  lemma LinkedClaimHas(n: Normalizers, actions: seq<Action>, db: Index, c: nat)
    requires Reached(n, actions, db) && c < |db.claims| && HasLinks(db, c)
    ensures n.phone(db.claims[c].phone).Some? ==> exists e: nat :: Link(c, e, PHONE) in db.links
    ensures exists e: nat :: Link(c, e, ADDRESS) in db.links
    ensures (exists e: nat :: Link(c, e, SHOP) in db.links) <==>
      db.claims[c].shop.Some? && !n.blank(db.claims[c].shop.value)
  {
    hide Reached;
    RunKeepsInv(n, actions, db);
    assert HasRow(db, c, ADDRESS);
    if n.phone(db.claims[c].phone).Some? { assert HasRow(db, c, PHONE); }
    if db.claims[c].shop.Some? && !n.blank(db.claims[c].shop.value) { assert HasRow(db, c, SHOP); }
    if e: nat :| Link(c, e, SHOP) in db.links { assert RowFits(n, db, Link(c, e, SHOP)); }
  }

  /** The claims an entity is shared by: what the lookup by entity returns. */
  function ClaimsOf(db: Index, e: nat): set<nat> {
    set row | row in db.links && row.entity == e :: row.claim
  }

  ghost predicate Share(db: Index, c: nat, d: nat, t: EntityType) {
    exists e: nat :: Link(c, e, t) in db.links && Link(d, e, t) in db.links
  }

  lemma RowOf(n: Normalizers, db: Index, c: nat, t: EntityType) returns (e: nat)
    requires Inv(n, db) && c < |db.claims| && HasLinks(db, c) && Value(n, db.claims[c], t).Some?
    ensures Link(c, e, t) in db.links && e < |db.entities| && Is(db.entities[e], t, Value(n, db.claims[c], t).value)
  {
    hide Value;
    assert HasRow(db, c, t);
    e :| Link(c, e, t) in db.links;
    assert RowFits(n, db, Link(c, e, t));
  }

  lemma OnlyEntity(n: Normalizers, db: Index, e: nat, f: nat)
    requires Inv(n, db) && e < |db.entities| && f < |db.entities|
    requires Is(db.entities[e], db.entities[f].entityType, db.entities[f].canonical)
    ensures e == f
  {
  }

  /** Two linked claims share an entity of a type exactly when both have a value for that type and
      the normalized values agree. */
  lemma ShareExactly(n: Normalizers, actions: seq<Action>, db: Index, c: nat, d: nat, t: EntityType)
    requires Reached(n, actions, db)
    requires c < |db.claims| && d < |db.claims| && HasLinks(db, c) && HasLinks(db, d)
    ensures Share(db, c, d, t) <==>
      Value(n, db.claims[c], t).Some? && Value(n, db.claims[c], t) == Value(n, db.claims[d], t)
  {
    hide Reached, Value;
    RunKeepsInv(n, actions, db);
    if Share(db, c, d, t) {
      var e: nat :| Link(c, e, t) in db.links && Link(d, e, t) in db.links;
      assert RowFits(n, db, Link(c, e, t)) && RowFits(n, db, Link(d, e, t));
    }
    if Value(n, db.claims[c], t).Some? && Value(n, db.claims[c], t) == Value(n, db.claims[d], t) {
      var e := RowOf(n, db, c, t);
      var f := RowOf(n, db, d, t);
      OnlyEntity(n, db, e, f);
    }
  }

  /** These are the linked claims whose canonical value, of its type, the entity holds. */
  ghost predicate AreSharers(n: Normalizers, db: Index, e: nat, found: set<nat>)
    requires e < |db.entities|
  {
    && db.entities[e].claimCount == |found|
    && forall c: nat :: c in found <==>
         && c < |db.claims| && HasLinks(db, c)
         && Value(n, db.claims[c], db.entities[e].entityType) == Some(db.entities[e].canonical)
  }

  /** An entity's claim count is the number of linked claims whose canonical value it holds. */
  lemma CountIsSharers(n: Normalizers, actions: seq<Action>, db: Index, e: nat)
    requires Reached(n, actions, db) && e < |db.entities|
    ensures AreSharers(n, db, e, ClaimsOf(db, e))
  {
    hide Reached, AreSharers;
    RunKeepsInv(n, actions, db);
    LinkedAreSharers(n, db, e);
  }

  lemma LinkedAreSharers(n: Normalizers, db: Index, e: nat)
    requires Inv(n, db) && e < |db.entities|
    ensures AreSharers(n, db, e, ClaimsOf(db, e))
  {
    hide Value;
    var t := db.entities[e].entityType;
    forall row | row in RowsOf(db.links, e) ensures row == Link(row.claim, e, t) { assert RowFits(n, db, row); }
    OneRowPerClaim(RowsOf(db.links, e), ClaimsOf(db, e), e, t);
    forall c: nat ensures c in ClaimsOf(db, e) <==>
      c < |db.claims| && HasLinks(db, c) && Value(n, db.claims[c], t) == Some(db.entities[e].canonical)
    {
      if c in ClaimsOf(db, e) {
        var row :| row in db.links && row.entity == e && row.claim == c;
        assert RowFits(n, db, row);
      }
      if c < |db.claims| && HasLinks(db, c) && Value(n, db.claims[c], t) == Some(db.entities[e].canonical) {
        var f := RowOf(n, db, c, t);
        OnlyEntity(n, db, f, e);
      }
    }
  }

  lemma {:induction false} OneRowPerClaim(rows: set<Link>, claims: set<nat>, e: nat, t: EntityType)
    requires forall row :: row in rows ==> row == Link(row.claim, e, t) && row.claim in claims
    requires forall c :: c in claims ==> Link(c, e, t) in rows
    ensures |rows| == |claims|
    decreases claims
  {
    if claims == {} {
      assert rows == {};
    } else {
      var c :| c in claims;
      OneRowPerClaim(rows - {Link(c, e, t)}, claims - {c}, e, t);
    }
  }

  /** When a backlog pass completes: when the phone number of every claim without links parses.
      The next pass then finds nothing to do, returns 0 and changes nothing. */
  lemma CompletedPassIsFinal(n: Normalizers, actions: seq<Action>, db: Index, ids: seq<nat>, next: seq<nat>)
    requires Reached(n, actions, db) && Unresolved(db, ids)
    ensures Pass(n, db, ids).1 <==>
      forall c: nat :: c < |db.claims| && !HasLinks(db, c) ==> n.phone(db.claims[c].phone).Some?
    ensures Pass(n, db, ids).1 && Unresolved(Pass(n, db, ids).0, next) ==>
      next == [] && Pass(n, Pass(n, db, ids).0, next) == (Pass(n, db, ids).0, true)
  {
    hide Reached, HasLinks, Inv;
    RunKeepsInv(n, actions, db);
    assert forall i :: 0 <= i < |ids| ==> ids[i] in ids;
    PassResolves(n, db, ids);
    if Pass(n, db, ids).1 {
      var after := Pass(n, db, ids).0;
      forall c: nat | c < |db.claims| ensures HasLinks(after, c) {
        if !HasLinks(db, c) { assert c in ids; }
      }
      assert next != [] ==> next[0] in next;
    }
  }
}
