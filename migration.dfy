/** What a load does to the stored document before the handlers see it: a
    missing `notes` map becomes empty and, on the Express server only, a
    restaurant whose id is a built-in one and whose cuisine is falsy gets the
    built-in cuisine back. */
module Migration {
  import opened Wrappers
  import opened Model

  /** The two deployments: the Express server keeps the document in a file,
      the Netlify functions keep it in a blob store. */
  datatype Backend = Express | Netlify

  /** `!r.cuisine`: null, absent and the empty string are all falsy. */
  predicate FalsyCuisine(c: Option<string>) {
    c.None? || c.value == ""
  }

  /** `defaultRestaurants.find(d => d.id === id)`. */
  function DefaultFor(id: string): (r: Option<Restaurant>)
    ensures r.Some? <==> HasId(Defaults(), id)
    ensures r.Some? ==> r.value.id == id && r.value in Defaults()
  {
    FindById(Defaults(), id)
  }

  lemma DefaultCuisinesPresent()
    ensures forall i :: 0 <= i < |Defaults()| ==> !FalsyCuisine(Defaults()[i].cuisine)
  {
  }

  /** The backfill of one restaurant. */
  function Backfilled(r: Restaurant): Restaurant {
    var d := DefaultFor(r.id);
    if d.Some? && FalsyCuisine(r.cuisine) then r.(cuisine := d.value.cuisine) else r
  }

  /** The backfill only ever touches the cuisine: a built-in id with a
      falsy cuisine gets that built-in restaurant's own cuisine, every
      built-in id ends with a truthy cuisine, and anything else is left
      exactly as it was. */
  lemma BackfilledSpec(r: Restaurant)
    ensures Backfilled(r).(cuisine := r.cuisine) == r
    ensures HasId(Defaults(), r.id) && FalsyCuisine(r.cuisine) ==> Backfilled(r).cuisine == DefaultFor(r.id).value.cuisine
    ensures HasId(Defaults(), r.id) ==> !FalsyCuisine(Backfilled(r).cuisine)
    ensures !HasId(Defaults(), r.id) || !FalsyCuisine(r.cuisine) ==> Backfilled(r) == r
  {
    DefaultCuisinesPresent();
  }

  /** Backfilling twice is backfilling once. */
  lemma BackfilledIdempotent(r: Restaurant)
    ensures Backfilled(Backfilled(r)) == Backfilled(r)
  {
    BackfilledSpec(r);
    BackfilledSpec(Backfilled(r));
  }

  /** Nothing left to backfill. */
  predicate Settled(rs: seq<Restaurant>) {
    forall i :: 0 <= i < |rs| ==> Backfilled(rs[i]) == rs[i]
  }

  /** The `forEach` over the loaded restaurants, rewriting each in turn. */
  method BackfillCuisines(rs: seq<Restaurant>) returns (out: seq<Restaurant>)
    ensures |out| == |rs|
    ensures forall i :: 0 <= i < |rs| ==> out[i] == Backfilled(rs[i])
  {
    out := rs;
    var i := 0;
    while i < |out|
      invariant 0 <= i <= |out| == |rs|
      invariant forall j :: 0 <= j < i ==> out[j] == Backfilled(rs[j])
      invariant forall j :: i <= j < |out| ==> out[j] == rs[j]
    {
      var r := out[i];
      assert r == rs[i];
      var d := DefaultFor(r.id);
      if d.Some? && FalsyCuisine(r.cuisine) {
        r := r.(cuisine := d.value.cuisine);
      }
      out := out[i := r];
      i := i + 1;
    }
  }

  function BackfillAll(rs: seq<Restaurant>): seq<Restaurant> {
    seq(|rs|, i requires 0 <= i < |rs| => Backfilled(rs[i]))
  }

  /** The loaded document: `if (!data.notes) data.notes = {}`, then the
      cuisine backfill on the Express server. */
  function Migrate(b: Backend, s: Stored): (d: Document)
    ensures d.votes == s.votes
    ensures d.notes == s.notes.GetOr(map[])
    ensures |d.restaurants| == |s.restaurants|
    ensures b == Netlify ==> d.restaurants == s.restaurants
    ensures b == Express ==> forall i :: 0 <= i < |s.restaurants| ==> d.restaurants[i] == Backfilled(s.restaurants[i])
  {
    var notes := if s.notes.None? then map[] else s.notes.value;
    var rs := if b == Express then BackfillAll(s.restaurants) else s.restaurants;
    Document(rs, s.votes, notes)
  }

  /** The migration keeps ids, names and the built-in flag, so it keeps the
      invariant on restaurants. */
  lemma MigrateKeepsIdentity(b: Backend, s: Stored, i: int)
    requires 0 <= i < |s.restaurants|
    ensures Migrate(b, s).restaurants[i].id == s.restaurants[i].id
    ensures Migrate(b, s).restaurants[i].name == s.restaurants[i].name
    ensures Migrate(b, s).restaurants[i].isDefault == s.restaurants[i].isDefault
    ensures Migrate(b, s).restaurants[i].suggestedBy == s.restaurants[i].suggestedBy
  {
    if b == Express {
      BackfilledSpec(s.restaurants[i]);
    }
  }

  lemma MigrateKeepsValid(b: Backend, s: Stored)
    requires UniqueIds(s.restaurants) && SuggestedIdsAreSlugs(s.restaurants)
    requires s.notes.None? || NotesNonBlank(s.notes.value)
    ensures Valid(Migrate(b, s))
  {
    var rs := Migrate(b, s).restaurants;
    forall i | 0 <= i < |rs| ensures rs[i].id == s.restaurants[i].id && rs[i].name == s.restaurants[i].name && rs[i].isDefault == s.restaurants[i].isDefault {
      MigrateKeepsIdentity(b, s, i);
    }
  }

  /** Saving a loaded document and loading it again gives the same document:
      the migration has nothing left to do the second time. */
  lemma {:induction false} LoadSaveLoad(b: Backend, s: Stored)
    ensures Migrate(b, Persisted(Migrate(b, s))) == Migrate(b, s)
  {
    var d := Migrate(b, s);
    if b == Express {
      var again := Migrate(b, Persisted(d)).restaurants;
      forall i | 0 <= i < |d.restaurants| ensures again[i] == d.restaurants[i] {
        BackfilledIdempotent(s.restaurants[i]);
      }
    }
  }

  /** A saved document whose restaurants need no backfill loads back exactly. */
  lemma SaveLoad(b: Backend, d: Document)
    requires b == Express ==> Settled(d.restaurants)
    ensures Migrate(b, Persisted(d)) == d
  {
  }

  /** The document a handler works on: the seeded one when nothing could be
      read, the migrated stored one otherwise. */
  function Loaded(b: Backend, blob: Option<Stored>): Document {
    if blob.None? then Initial() else Migrate(b, blob.value)
  }

  /** What the store holds after a load: the seeded document is written when
      nothing was there; a migration is not written back. */
  function AfterLoad(blob: Option<Stored>): Option<Stored> {
    if blob.None? then Some(Persisted(Initial())) else blob
  }

  /** The number of writes a load makes. */
  function LoadWrites(blob: Option<Stored>): nat {
    if blob.None? then 1 else 0
  }

  /** The seeded document needs no backfill, so the first load after seeding
      returns exactly the seeded document on either backend. */
  lemma SeededLoadsBack(b: Backend)
    ensures Loaded(b, AfterLoad(None)) == Loaded(b, None) == Initial()
  {
    DefaultCuisinesPresent();
    assert Settled(Defaults()) by {
      forall i | 0 <= i < |Defaults()| ensures Backfilled(Defaults()[i]) == Defaults()[i] {
        BackfilledSpec(Defaults()[i]);
      }
    }
    SaveLoad(b, Initial());
  }

  /** Every document a load returns satisfies the invariant when the stored
      one did. */
  lemma LoadedValid(b: Backend, blob: Option<Stored>)
    requires blob.Some? ==> UniqueIds(blob.value.restaurants) && SuggestedIdsAreSlugs(blob.value.restaurants)
    requires blob.Some? && blob.value.notes.Some? ==> NotesNonBlank(blob.value.notes.value)
    ensures Valid(Loaded(b, blob))
  {
    if blob.None? {
      InitialValid();
    } else {
      MigrateKeepsValid(b, blob.value);
    }
  }
}
