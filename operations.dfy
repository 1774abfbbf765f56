/** The five read-modify-write operations, as transitions of a loaded
    document: identify (with the rename transfer), vote, note, suggest and
    reset. Each returns the document to save or the error the handler
    replies with. An empty visitor name stands for a missing cookie. */
module Operations {
  import opened Wrappers
  import opened Text
  import opened Slugs
  import opened Model

  // ---------------------------------------------------------------- identify

  /** `if (m[from]) { m[to] = m[from]; delete m[from]; }`: the entry moves to
      the new key, overwriting whatever was there; other keys are untouched. */
  function MoveKey<V>(m: map<string, V>, from: string, to: string): (r: map<string, V>)
    requires from != to
    ensures from in m ==> to in r && r[to] == m[from] && from !in r
    ensures from !in m ==> r == m
    ensures forall k :: k != from && k != to ==> (k in r <==> k in m)
    ensures forall k :: k != from && k != to && k in r ==> r[k] == m[k]
  {
    if from in m then m[to := m[from]] - {from} else m
  }

  /** The `forEach` that hands the old name's suggestions to the new name. */
  function RenameSuggestions(rs: seq<Restaurant>, from: string, to: string): (out: seq<Restaurant>)
    ensures |out| == |rs|
    ensures forall i :: 0 <= i < |rs| ==> out[i].(suggestedBy := rs[i].suggestedBy) == rs[i]
    ensures forall i :: 0 <= i < |rs| && rs[i].suggestedBy == Some(from) ==> out[i].suggestedBy == Some(to)
    ensures forall i :: 0 <= i < |rs| && rs[i].suggestedBy != Some(from) ==> out[i] == rs[i]
  {
    seq(|rs|, i requires 0 <= i < |rs| =>
      if rs[i].suggestedBy == Some(from) then rs[i].(suggestedBy := Some(to)) else rs[i])
  }

  /** The transfer of votes, notes and suggestions from one name to another. */
  function Rename(d: Document, from: string, to: string): Document
    requires from != to
  {
    Document(RenameSuggestions(d.restaurants, from, to), MoveKey(d.votes, from, to), MoveKey(d.notes, from, to))
  }

  /** The reply of set-user: the trimmed name the cookie is set to, the
      document, and whether it is written. */
  datatype Identified = Identified(doc: Document, name: string, save: bool)

  /** `set-user`: a missing or blank name is refused; otherwise the name is
      trimmed and, when the cookie held a different name, everything of the
      old name is transferred and the document is written. */
  function SetUser(d: Document, oldName: string, name: Option<string>): (r: Result<Identified, Failure>)
    ensures r.Err? <==> IsBlankOrMissing(name)
    ensures r.Err? ==> r.error == NameRequired
    ensures r.Ok? ==> r.value.name == Trim(name.value) && !IsBlank(r.value.name)
    ensures r.Ok? ==> (r.value.save <==> oldName != "" && oldName != r.value.name)
    ensures r.Ok? && !r.value.save ==> r.value.doc == d
    ensures r.Ok? && r.value.save ==> r.value.doc == Rename(d, oldName, r.value.name)
  {
    if IsBlankOrMissing(name) then Err(NameRequired)
    else
      var t := Trim(name.value);
      TrimmedNotBlank(name.value);
      if oldName != "" && oldName != t then Ok(Identified(Rename(d, oldName, t), t, true))
      else Ok(Identified(d, t, false))
  }

  /** The new name owns exactly what the old one owned: its vote map, its
      note map and its suggestions; the old name owns nothing afterwards. */
  lemma RenameTransfers(d: Document, from: string, to: string)
    requires from != to
    ensures var e := Rename(d, from, to);
      && from !in e.votes && from !in e.notes
      && (from in d.votes ==> to in e.votes && e.votes[to] == d.votes[from])
      && (from !in d.votes ==> e.votes == d.votes)
      && (from in d.notes ==> to in e.notes && e.notes[to] == d.notes[from])
      && (from !in d.notes ==> e.notes == d.notes)
      && (forall i :: 0 <= i < |e.restaurants| ==> e.restaurants[i].suggestedBy != Some(from))
  {
  }

  /** Renaming back undoes a rename onto a name that owned nothing. */
  lemma {:induction false} RenameRoundTrip(d: Document, a: string, b: string)
    requires a != b
    requires b !in d.votes && b !in d.notes
    requires forall i :: 0 <= i < |d.restaurants| ==> d.restaurants[i].suggestedBy != Some(b)
    ensures Rename(Rename(d, a, b), b, a) == d
  {
    var e := Rename(d, a, b);
    var f := Rename(e, b, a);
    assert f.votes == d.votes by {
      MoveKeyRoundTrip(d.votes, a, b);
    }
    assert f.notes == d.notes by {
      MoveKeyRoundTrip(d.notes, a, b);
    }
    assert f.restaurants == d.restaurants by {
      forall i | 0 <= i < |d.restaurants| ensures f.restaurants[i] == d.restaurants[i] {
        if d.restaurants[i].suggestedBy == Some(a) {
          assert e.restaurants[i].suggestedBy == Some(b);
        } else {
          assert e.restaurants[i] == d.restaurants[i];
        }
      }
    }
  }

  lemma MoveKeyRoundTrip<V>(m: map<string, V>, a: string, b: string)
    requires a != b && b !in m
    ensures MoveKey(MoveKey(m, a, b), b, a) == m
  {
    var n := MoveKey(MoveKey(m, a, b), b, a);
    assert n.Keys == m.Keys;
  }

  /** A rename keeps ids, names and the built-in flags, and moves note maps
      whole, so it keeps the invariant. */
  lemma RenameKeepsValid(d: Document, from: string, to: string)
    requires from != to && Valid(d)
    ensures Valid(Rename(d, from, to))
  {
    var e := Rename(d, from, to);
    forall v, id | v in e.notes && id in e.notes[v] ensures !IsBlank(e.notes[v][id]) {
      if v == to && from in d.notes {
        assert e.notes[v] == d.notes[from];
      }
    }
  }

  /** Setting the same name again, with the cookie now holding it, writes
      nothing. */
  lemma SetUserTwice(d: Document, oldName: string, name: Option<string>)
    requires SetUser(d, oldName, name).Ok?
    ensures var r := SetUser(d, oldName, name).value;
      SetUser(r.doc, r.name, name) == Ok(Identified(r.doc, r.name, false))
  {
  }

  // -------------------------------------------------------------------- vote

  /** A valid `voteType`: cast `up` or `down`, or withdraw with `none`. */
  datatype VoteChoice = Cast(vote: Vote) | Withdraw

  /** `['up', 'down', 'none'].includes(voteType)`. */
  function ParseVoteType(t: string): (c: Option<VoteChoice>)
    ensures c.Some? <==> t in {"up", "down", "none"}
    ensures c == Some(Withdraw) <==> t == "none"
    ensures c == Some(Cast(Up)) <==> t == "up"
    ensures c == Some(Cast(Down)) <==> t == "down"
  {
    if t == "up" then Some(Cast(Up))
    else if t == "down" then Some(Cast(Down))
    else if t == "none" then Some(Withdraw)
    else None
  }

  /** What `votes[v][r]` holds after the choice. */
  function Chosen(c: VoteChoice): Option<Vote> {
    if c.Withdraw? then None else Some(c.vote)
  }

  /** `vote`: the checks run in the order visitor, vote type, restaurant;
      on success the visitor's vote map exists, the one entry is set or
      removed, and nothing else changes. */
  function CastVote(d: Document, v: string, rid: string, voteType: string): (r: Result<Document, Failure>)
    ensures v == "" ==> r == Err(NoVisitor)
    ensures v != "" && ParseVoteType(voteType).None? ==> r == Err(InvalidVoteType)
    ensures v != "" && ParseVoteType(voteType).Some? && !HasId(d.restaurants, rid) ==> r == Err(RestaurantNotFound)
    ensures r.Ok? <==> v != "" && ParseVoteType(voteType).Some? && HasId(d.restaurants, rid)
    ensures r.Ok? ==> r.value.restaurants == d.restaurants && r.value.notes == d.notes
    ensures r.Ok? ==> v in r.value.votes && r.value.votes.Keys == d.votes.Keys + {v}
    ensures r.Ok? ==> At(r.value.votes, v, rid) == Chosen(ParseVoteType(voteType).value)
    ensures r.Ok? ==> forall w, id :: w != v || id != rid ==> At(r.value.votes, w, id) == At(d.votes, w, id)
  {
    if v == "" then Err(NoVisitor)
    else
      match ParseVoteType(voteType)
      case None => Err(InvalidVoteType)
      case Some(c) =>
        if FindById(d.restaurants, rid).None? then Err(RestaurantNotFound)
        else
          Ok(d.(votes := Put(d.votes, v, rid, Chosen(c))))
  }

  /** A vote changes neither restaurants nor notes, so it keeps the invariant. */
  lemma CastVoteKeepsValid(d: Document, v: string, rid: string, voteType: string)
    requires Valid(d) && CastVote(d, v, rid, voteType).Ok?
    ensures Valid(CastVote(d, v, rid, voteType).value)
  {
  }

  /** Two requests that load the same document and each save their own
      result: the second save drops the first visitor's vote. */
  lemma LostUpdate(d: Document, a: string, b: string, rid: string)
    requires a != "" && b != "" && a != b && HasId(d.restaurants, rid)
    requires At(d.votes, a, rid) == None
    ensures At(CastVote(d, a, rid, "up").value.votes, a, rid) == Some(Up)
    ensures At(CastVote(d, b, rid, "up").value.votes, a, rid) == None
  {
  }

  // -------------------------------------------------------------------- note

  /** `note`: after the visitor and restaurant checks the visitor's note map
      exists (even when the note is deleted); a missing or blank note
      deletes the entry, any other note is stored trimmed. */
  function WriteNote(d: Document, v: string, rid: string, note: Option<string>): (r: Result<Document, Failure>)
    ensures v == "" ==> r == Err(NoVisitor)
    ensures v != "" && !HasId(d.restaurants, rid) ==> r == Err(RestaurantNotFound)
    ensures r.Ok? <==> v != "" && HasId(d.restaurants, rid)
    ensures r.Ok? ==> r.value.restaurants == d.restaurants && r.value.votes == d.votes
    ensures r.Ok? ==> v in r.value.notes && r.value.notes.Keys == d.notes.Keys + {v}
    ensures r.Ok? && IsBlankOrMissing(note) ==> At(r.value.notes, v, rid) == None
    ensures r.Ok? && !IsBlankOrMissing(note) ==> At(r.value.notes, v, rid) == Some(Trim(note.value))
    ensures r.Ok? ==> forall w, id :: w != v || id != rid ==> At(r.value.notes, w, id) == At(d.notes, w, id)
  {
    if v == "" then Err(NoVisitor)
    else if FindById(d.restaurants, rid).None? then Err(RestaurantNotFound)
    else
      Ok(d.(notes := Put(d.notes, v, rid, StoredNote(note))))
  }

  /** What `notes[v][r]` holds after a write: nothing for a missing or blank
      note, the trimmed text otherwise. */
  function StoredNote(note: Option<string>): Option<string> {
    if IsBlankOrMissing(note) then None else Some(Trim(note.value))
  }

  /** A stored note is never blank: writing keeps the invariant. */
  lemma WriteNoteKeepsValid(d: Document, v: string, rid: string, note: Option<string>)
    requires Valid(d) && WriteNote(d, v, rid, note).Ok?
    ensures Valid(WriteNote(d, v, rid, note).value)
  {
    var e := WriteNote(d, v, rid, note).value;
    forall w, id | w in e.notes && id in e.notes[w] ensures !IsBlank(e.notes[w][id]) {
      assert At(e.notes, w, id) == Some(e.notes[w][id]);
      if w == v && id == rid {
        TrimmedNotBlank(note.value);
      } else {
        assert At(d.notes, w, id) == Some(e.notes[w][id]);
      }
    }
  }

  /** A blank note and a missing one both delete. */
  lemma BlankNoteDeletes(d: Document, v: string, rid: string, note: string)
    requires IsBlank(note)
    ensures WriteNote(d, v, rid, Some(note)) == WriteNote(d, v, rid, None)
  {
  }

  // ----------------------------------------------------------------- suggest

  /** `cuisine?.trim() || null`. */
  function CuisineOf(c: Option<string>): (r: Option<string>)
    ensures r.None? <==> IsBlankOrMissing(c)
    ensures r.Some? ==> r.value == Trim(c.value) && !IsBlank(r.value)
  {
    if IsBlankOrMissing(c) then None
    else
      TrimmedNotBlank(c.value);
      Some(Trim(c.value))
  }

  /** The restaurant a suggestion appends. */
  function Suggested(v: string, name: string, cuisine: Option<string>, at: string): Restaurant {
    Restaurant(Slug(name), Trim(name), CuisineOf(cuisine), false, Some(v), Some(at))
  }

  /** `suggest`: the checks run in the order visitor, name, duplicate id; on
      success exactly one restaurant is appended at the end and the
      suggester's vote for it is `up`. The clock reading is `at`. */
  function AddSuggestion(d: Document, v: string, name: Option<string>, cuisine: Option<string>, at: string): (r: Result<Document, Failure>)
    ensures v == "" ==> r == Err(NoVisitor)
    ensures v != "" && IsBlankOrMissing(name) ==> r == Err(RestaurantNameRequired)
    ensures v != "" && !IsBlankOrMissing(name) && HasId(d.restaurants, Slug(name.value)) ==> r == Err(AlreadyExists)
    ensures r.Ok? <==> v != "" && !IsBlankOrMissing(name) && !HasId(d.restaurants, Slug(name.value))
    ensures r.Ok? ==> r.value.restaurants == d.restaurants + [Suggested(v, name.value, cuisine, at)]
    ensures r.Ok? ==> r.value.notes == d.notes && r.value.votes.Keys == d.votes.Keys + {v}
    ensures r.Ok? ==> At(r.value.votes, v, Slug(name.value)) == Some(Up)
    ensures r.Ok? ==> forall w, id :: w != v || id != Slug(name.value) ==> At(r.value.votes, w, id) == At(d.votes, w, id)
  {
    if v == "" then Err(NoVisitor)
    else if IsBlankOrMissing(name) then Err(RestaurantNameRequired)
    else
      var id := Slug(name.value);
      if FindById(d.restaurants, id).Some? then Err(AlreadyExists)
      else
        Ok(Document(d.restaurants + [Suggested(v, name.value, cuisine, at)], Put(d.votes, v, id, Some(Up)), d.notes))
  }

  /** The appended restaurant: a non-empty id of `[a-z0-9-]` without a
      doubled hyphen, the trimmed name, not built-in, suggested by the
      visitor at the given time. */
  lemma SuggestedShape(d: Document, v: string, name: Option<string>, cuisine: Option<string>, at: string)
    requires AddSuggestion(d, v, name, cuisine, at).Ok?
    ensures var rs := AddSuggestion(d, v, name, cuisine, at).value.restaurants;
      var r := rs[|rs| - 1];
      && r.id != [] && SlugShaped(r.id)
      && r.name == Trim(name.value) && !IsBlank(r.name)
      && !r.isDefault && r.suggestedBy == Some(v) && r.suggestedAt == Some(at)
      && r.id == Slug(r.name)
  {
    TrimmedNotBlank(name.value);
    SlugOfTrim(name.value);
  }

  /** Appending a restaurant with a fresh id keeps ids unique. */
  lemma AppendKeepsUnique(rs: seq<Restaurant>, r: Restaurant)
    requires UniqueIds(rs) && !HasId(rs, r.id)
    ensures UniqueIds(rs + [r])
  {
    var e := rs + [r];
    forall i, j | 0 <= i < j < |e| ensures e[i].id != e[j].id {
      assert e[i] == rs[i];
      if j < |rs| {
        assert e[j] == rs[j];
      }
    }
  }

  /** Appending a restaurant whose id is the slug of its name keeps every
      suggested id a slug. */
  lemma AppendKeepsSlugs(rs: seq<Restaurant>, r: Restaurant)
    requires SuggestedIdsAreSlugs(rs) && r.id == Slug(r.name)
    ensures SuggestedIdsAreSlugs(rs + [r])
  {
    var e := rs + [r];
    forall i | 0 <= i < |e| && !e[i].isDefault ensures e[i].id == Slug(e[i].name) {
      if i < |rs| {
        assert e[i] == rs[i];
      }
    }
  }

  /** Ids stay unique and suggested ids stay slugs of their names. */
  lemma SuggestKeepsValid(d: Document, v: string, name: Option<string>, cuisine: Option<string>, at: string)
    requires Valid(d) && AddSuggestion(d, v, name, cuisine, at).Ok?
    ensures Valid(AddSuggestion(d, v, name, cuisine, at).value)
  {
    var r := Suggested(v, name.value, cuisine, at);
    SlugOfTrim(name.value);
    AppendKeepsUnique(d.restaurants, r);
    AppendKeepsSlugs(d.restaurants, r);
  }

  /** Suggesting the same name again, by anyone, is refused. */
  lemma SuggestTwiceConflicts(d: Document, v: string, w: string, name: Option<string>, c1: Option<string>, c2: Option<string>, at1: string, at2: string)
    requires w != "" && AddSuggestion(d, v, name, c1, at1).Ok?
    ensures AddSuggestion(AddSuggestion(d, v, name, c1, at1).value, w, name, c2, at2) == Err(AlreadyExists)
  {
    var e := AddSuggestion(d, v, name, c1, at1).value;
    assert e.restaurants[|d.restaurants|].id == Slug(name.value);
  }

  // ------------------------------------------------------------------- reset

  /** The reply of reset: the document and whether it is written. */
  datatype Cleared = Cleared(doc: Document, changed: bool)

  /** `reset`: the visitor's vote map and note map are deleted; the document
      is written only when one of them existed (an empty map counts). */
  function Reset(d: Document, v: string): (r: Result<Cleared, Failure>)
    ensures r.Err? <==> v == ""
    ensures r.Err? ==> r.error == NoVisitor
    ensures r.Ok? ==> v !in r.value.doc.votes && v !in r.value.doc.notes
    ensures r.Ok? ==> r.value.doc.votes.Keys == d.votes.Keys - {v} && r.value.doc.notes.Keys == d.notes.Keys - {v}
    ensures r.Ok? ==> forall w :: w in r.value.doc.votes ==> r.value.doc.votes[w] == d.votes[w]
    ensures r.Ok? ==> forall w :: w in r.value.doc.notes ==> r.value.doc.notes[w] == d.notes[w]
    ensures r.Ok? ==> r.value.doc.restaurants == d.restaurants
    ensures r.Ok? ==> (r.value.changed <==> v in d.votes || v in d.notes)
    ensures r.Ok? && !r.value.changed ==> r.value.doc == d
  {
    if v == "" then Err(NoVisitor)
    else
      var votes := if v in d.votes then d.votes - {v} else d.votes;
      var notes := if v in d.notes then d.notes - {v} else d.notes;
      Ok(Cleared(Document(d.restaurants, votes, notes), v in d.votes || v in d.notes))
  }

  /** A second reset finds nothing to delete and writes nothing. */
  lemma ResetTwice(d: Document, v: string)
    requires v != ""
    ensures var e := Reset(d, v).value.doc;
      Reset(e, v) == Ok(Cleared(e, false))
  {
  }

  lemma ResetKeepsValid(d: Document, v: string)
    requires Valid(d) && v != ""
    ensures Valid(Reset(d, v).value.doc)
  {
  }
}
