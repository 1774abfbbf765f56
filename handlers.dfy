/** The request handlers over the one stored document: each loads the
    document (seeding it when nothing is stored), checks its inputs in the
    order the source does, changes its working copy step by step and writes
    it back. The store counts its writes so that the contracts can say when
    a handler writes and when it does not. The visitor is the value of the
    `visitorId` cookie, empty when there is none. */
module Handlers {
  import opened Wrappers
  import opened Text
  import opened Slugs
  import opened Model
  import opened Migration
  import opened Operations
  import opened Projection

  /** `data.restaurants.forEach(r => { if (r.suggestedBy === oldName)
      r.suggestedBy = trimmedName; })`, rewriting the list in place. */
  method HandOverSuggestions(rs: seq<Restaurant>, from: string, to: string) returns (out: seq<Restaurant>)
    ensures out == RenameSuggestions(rs, from, to)
  {
    out := rs;
    var i := 0;
    while i < |out|
      invariant 0 <= i <= |out| == |rs|
      invariant forall j :: 0 <= j < i ==> out[j] == RenameSuggestions(rs, from, to)[j]
      invariant forall j :: i <= j < |out| ==> out[j] == rs[j]
    {
      if out[i].suggestedBy == Some(from) {
        out := out[i := out[i].(suggestedBy := Some(to))];
      }
      i := i + 1;
    }
  }

  /** `if (!m[v]) m[v] = {}`, then `m[v][id] = x` or `delete m[v][id]`. */
  method SetEntry<V>(m: map<string, map<string, V>>, v: string, id: string, x: Option<V>) returns (r: map<string, map<string, V>>)
    ensures r == Put(m, v, id, x)
  {
    r := m;
    if v !in r {
      r := r[v := map[]];
    }
    match x {
      case None => r := r[v := r[v] - {id}];
      case Some(value) => r := r[v := r[v][id := value]];
    }
  }

  class Store {
    /** Which deployment reads the store: the Express server or the
        Netlify functions. */
    const backend: Backend
    /** What is stored under the one key; `None` when nothing is. */
    var blob: Option<Stored>
    /** The number of writes made so far. */
    var writes: nat

    constructor (backend: Backend, blob: Option<Stored>)
      ensures this.backend == backend && this.blob == blob && writes == 0
    {
      this.backend := backend;
      this.blob := blob;
      writes := 0;
    }

    /** `saveData(data)` / `store.setJSON(key, data)`. */
    method Save(d: Document)
      modifies this
      ensures blob == Some(Persisted(d)) && writes == old(writes) + 1
    {
      blob := Some(Persisted(d));
      writes := writes + 1;
    }

    /** `loadData()` / `getData(store)`: the stored document with `notes`
        filled in and, on the Express server, cuisines backfilled; the
        seeded document, written, when nothing is stored. */
    method Load() returns (d: Document)
      modifies this
      ensures d == Loaded(backend, old(blob))
      ensures blob == AfterLoad(old(blob))
      ensures writes == old(writes) + LoadWrites(old(blob))
    {
      if blob.None? {
        d := Initial();
        Save(d);
      } else {
        var s := blob.value;
        var notes := if s.notes.None? then map[] else s.notes.value;
        var rs := s.restaurants;
        if backend == Express {
          rs := BackfillCuisines(rs);
          assert rs == BackfillAll(s.restaurants);
        }
        d := Document(rs, s.votes, notes);
      }
    }

    /** `POST /api/set-user`: the name check comes before the load; the
        document is written only when the cookie held another name. */
    method SetUserHandler(visitor: string, name: Option<string>) returns (r: Result<string, Failure>)
      modifies this
      ensures IsBlankOrMissing(name) ==> r == Err(NameRequired) && blob == old(blob) && writes == old(writes)
      ensures !IsBlankOrMissing(name) ==>
        var res := SetUser(Loaded(backend, old(blob)), visitor, name).value;
        && r == Ok(res.name)
        && blob == (if res.save then Some(Persisted(res.doc)) else AfterLoad(old(blob)))
        && writes == old(writes) + LoadWrites(old(blob)) + (if res.save then 1 else 0)
    {
      if IsBlankOrMissing(name) {
        return Err(NameRequired);
      }
      var trimmed := Trim(name.value);
      var d := Load();
      if visitor != "" && visitor != trimmed {
        var votes, notes := d.votes, d.notes;
        if visitor in votes {
          votes := votes[trimmed := votes[visitor]];
          votes := votes - {visitor};
        }
        if visitor in notes {
          notes := notes[trimmed := notes[visitor]];
          notes := notes - {visitor};
        }
        var rs := HandOverSuggestions(d.restaurants, visitor, trimmed);
        assert votes == MoveKey(d.votes, visitor, trimmed);
        assert notes == MoveKey(d.notes, visitor, trimmed);
        Save(Document(rs, votes, notes));
      }
      r := Ok(trimmed);
    }

    /** `POST /api/vote`: the visitor and the vote type are checked before
        the load, the restaurant after it; only a successful vote writes. */
    method VoteHandler(visitor: string, rid: string, voteType: string) returns (failure: Option<Failure>)
      modifies this
      ensures visitor == "" ==> failure == Some(NoVisitor) && blob == old(blob) && writes == old(writes)
      ensures visitor != "" && ParseVoteType(voteType).None? ==>
        failure == Some(InvalidVoteType) && blob == old(blob) && writes == old(writes)
      ensures visitor != "" && ParseVoteType(voteType).Some? ==>
        var res := CastVote(Loaded(backend, old(blob)), visitor, rid, voteType);
        && (failure.None? <==> res.Ok?)
        && (res.Err? ==> failure == Some(res.error) && blob == AfterLoad(old(blob)) && writes == old(writes) + LoadWrites(old(blob)))
        && (res.Ok? ==> blob == Some(Persisted(res.value)) && writes == old(writes) + LoadWrites(old(blob)) + 1)
    {
      if visitor == "" {
        return Some(NoVisitor);
      }
      var choice := ParseVoteType(voteType);
      if choice.None? {
        return Some(InvalidVoteType);
      }
      var d := Load();
      if FindById(d.restaurants, rid).None? {
        return Some(RestaurantNotFound);
      }
      var votes := SetEntry(d.votes, visitor, rid, Chosen(choice.value));
      Save(d.(votes := votes));
      failure := None;
    }

    /** Two `POST /api/vote` requests, from visitors `a` and `b` for the same
        restaurant, interleaved: both load before either saves. Each save
        writes back the whole document it loaded, so the second one wipes
        out the first visitor's vote. */
    method InterleavedVotes(a: string, b: string, rid: string)
      modifies this
      requires a != "" && b != "" && a != b
      requires HasId(Loaded(backend, blob).restaurants, rid)
      requires At(Loaded(backend, blob).votes, a, rid) == None
      ensures blob == Some(Persisted(CastVote(Loaded(backend, old(blob)), b, rid, "up").value))
      ensures At(blob.value.votes, a, rid) == None
      ensures At(blob.value.votes, b, rid) == Some(Up)
      ensures writes == old(writes) + LoadWrites(old(blob)) + 2
    {
      var first := Load();
      var second := Load();
      SeededLoadsBack(backend);
      assert second == first;
      var votes := SetEntry(first.votes, a, rid, Some(Up));
      Save(first.(votes := votes));
      votes := SetEntry(second.votes, b, rid, Some(Up));
      Save(second.(votes := votes));
      LostUpdate(first, a, b, rid);
    }

    /** `POST /api/note`: the visitor is checked before the load, the
        restaurant after it; the visitor's note map is created, then the
        note is deleted when blank and stored trimmed otherwise. */
    method NoteHandler(visitor: string, rid: string, note: Option<string>) returns (failure: Option<Failure>)
      modifies this
      ensures visitor == "" ==> failure == Some(NoVisitor) && blob == old(blob) && writes == old(writes)
      ensures visitor != "" ==>
        var res := WriteNote(Loaded(backend, old(blob)), visitor, rid, note);
        && (failure.None? <==> res.Ok?)
        && (res.Err? ==> failure == Some(res.error) && blob == AfterLoad(old(blob)) && writes == old(writes) + LoadWrites(old(blob)))
        && (res.Ok? ==> blob == Some(Persisted(res.value)) && writes == old(writes) + LoadWrites(old(blob)) + 1)
    {
      if visitor == "" {
        return Some(NoVisitor);
      }
      var d := Load();
      if FindById(d.restaurants, rid).None? {
        return Some(RestaurantNotFound);
      }
      var notes := SetEntry(d.notes, visitor, rid, StoredNote(note));
      Save(d.(notes := notes));
      failure := None;
    }

    /** `POST /api/suggest`: the visitor and the name are checked before the
        load, the duplicate id after it; on success the restaurant is pushed
        and the suggester's `up` vote set. `at` is the clock reading. */
    method SuggestHandler(visitor: string, name: Option<string>, cuisine: Option<string>, at: string) returns (r: Result<Restaurant, Failure>)
      modifies this
      ensures visitor == "" ==> r == Err(NoVisitor) && blob == old(blob) && writes == old(writes)
      ensures visitor != "" && IsBlankOrMissing(name) ==>
        r == Err(RestaurantNameRequired) && blob == old(blob) && writes == old(writes)
      ensures visitor != "" && !IsBlankOrMissing(name) ==>
        var res := AddSuggestion(Loaded(backend, old(blob)), visitor, name, cuisine, at);
        && (r.Ok? <==> res.Ok?)
        && (res.Err? ==> r == Err(res.error) && blob == AfterLoad(old(blob)) && writes == old(writes) + LoadWrites(old(blob)))
        && (res.Ok? ==> r == Ok(Suggested(visitor, name.value, cuisine, at)))
        && (res.Ok? ==> blob == Some(Persisted(res.value)) && writes == old(writes) + LoadWrites(old(blob)) + 1)
    {
      if visitor == "" {
        return Err(NoVisitor);
      }
      if IsBlankOrMissing(name) {
        return Err(RestaurantNameRequired);
      }
      var d := Load();
      var id := Slug(name.value);
      if FindById(d.restaurants, id).Some? {
        return Err(AlreadyExists);
      }
      var restaurant := Restaurant(id, Trim(name.value), CuisineOf(cuisine), false, Some(visitor), Some(at));
      var rs := d.restaurants + [restaurant];
      var votes := SetEntry(d.votes, visitor, id, Some(Up));
      Save(Document(rs, votes, d.notes));
      r := Ok(restaurant);
    }

    /** `POST /api/reset`: the visitor is checked before the load; each of
        the visitor's maps that exists is deleted and sets `changed`, and
        the document is written only when something changed. */
    method ResetHandler(visitor: string) returns (failure: Option<Failure>)
      modifies this
      ensures visitor == "" ==> failure == Some(NoVisitor) && blob == old(blob) && writes == old(writes)
      ensures visitor != "" ==>
        var res := Reset(Loaded(backend, old(blob)), visitor).value;
        && failure.None?
        && blob == (if res.changed then Some(Persisted(res.doc)) else AfterLoad(old(blob)))
        && writes == old(writes) + LoadWrites(old(blob)) + (if res.changed then 1 else 0)
    {
      if visitor == "" {
        return Some(NoVisitor);
      }
      var d := Load();
      var changed := false;
      var votes, notes := d.votes, d.notes;
      if visitor in votes {
        votes := votes - {visitor};
        changed := true;
      }
      if visitor in notes {
        notes := notes - {visitor};
        changed := true;
      }
      if changed {
        Save(Document(d.restaurants, votes, notes));
      }
      failure := None;
    }

    /** `GET /api/restaurants`: the sorted views of the loaded document and
        the current user, null without a visitor. Only the seeding of an
        empty store writes. */
    method RestaurantsHandler(visitor: string) returns (views: seq<View>, currentUser: Option<string>)
      modifies this
      ensures blob == AfterLoad(old(blob)) && writes == old(writes) + LoadWrites(old(blob))
      ensures Sorted(views)
      ensures multiset(RestaurantsOf(views)) == multiset(Loaded(backend, old(blob)).restaurants)
      ensures forall i :: 0 <= i < |views| ==> IsViewOf(views[i], Loaded(backend, old(blob)), visitor, views[i].restaurant)
      ensures currentUser == (if visitor == "" then None else Some(visitor))
    {
      var d := Load();
      views := Restaurants(d, visitor);
      currentUser := if visitor == "" then None else Some(visitor);
    }
  }
}
