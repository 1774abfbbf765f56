/** The shared document: an ordered list of restaurants plus, per visitor,
    their votes and their notes, keyed by restaurant id. */
module Model {
  import opened Wrappers
  import opened Text
  import opened Slugs

  datatype Vote = Up | Down

  /** One votable option. `cuisine` is null or absent as `None`; `suggestedBy`
      and `suggestedAt` are present only on suggested restaurants. */
  datatype Restaurant = Restaurant(
    id: string,
    name: string,
    cuisine: Option<string>,
    isDefault: bool,
    suggestedBy: Option<string>,
    suggestedAt: Option<string>)

  /** visitor name -> restaurant id -> vote */
  type Votes = map<string, map<string, Vote>>
  /** visitor name -> restaurant id -> note text */
  type Notes = map<string, map<string, string>>

  /** The document every operation works on, after loading. */
  datatype Document = Document(restaurants: seq<Restaurant>, votes: Votes, notes: Notes)

  /** The document as it may sit in the store: one written before notes
      existed has no `notes` field. */
  datatype Stored = Stored(restaurants: seq<Restaurant>, votes: Votes, notes: Option<Notes>)

  /** The error replies of the handlers. */
  datatype Failure =
    | NoVisitor               // 401 'Please set your name first'
    | NameRequired            // 400 'Name is required'
    | InvalidVoteType         // 400 'Invalid vote type'
    | RestaurantNotFound      // 404 'Restaurant not found'
    | RestaurantNameRequired  // 400 'Restaurant name is required'
    | AlreadyExists           // 400 'This restaurant already exists!'

  function Seeded(id: string, name: string, cuisine: string): Restaurant {
    Restaurant(id, name, Some(cuisine), true, None, None)
  }

  /** The seven built-in restaurants, in their fixed order. */
  function Defaults(): seq<Restaurant> {
    [ Seeded("bishop-quigley", "Bishop Quigley", "Gastropub"),
      Seeded("taste-of-poland", "Taste of Poland", "Polish"),
      Seeded("notes-of-marrakesh", "Notes of Marrakesh", "Moroccan"),
      Seeded("arepa-bar", "Arepa Bar", "Venezuelan"),
      Seeded("chengdu", "Chengdu", "Sichuan Chinese"),
      Seeded("wildflower-cafe", "Wildflower Cafe", "Cafe"),
      Seeded("oak-hart-bbq", "Oak Hart BBQ", "BBQ") ]
  }

  /** The document written when the store holds nothing. */
  function Initial(): Document {
    Document(Defaults(), map[], map[])
  }

  /** What a save writes: the whole document, `notes` included. */
  function Persisted(d: Document): Stored {
    Stored(d.restaurants, d.votes, Some(d.notes))
  }

  predicate HasId(rs: seq<Restaurant>, id: string) {
    exists i :: 0 <= i < |rs| && rs[i].id == id
  }

  /** `rs.find(r => r.id === id)`: the first restaurant with that id. */
  function FindById(rs: seq<Restaurant>, id: string): (r: Option<Restaurant>)
    ensures r.Some? <==> HasId(rs, id)
    ensures r.Some? ==> r.value.id == id && r.value in rs
    ensures r.Some? ==> exists i :: 0 <= i < |rs| && rs[i] == r.value && forall j :: 0 <= j < i ==> rs[j].id != id
  {
    if rs == [] then None
    else if rs[0].id == id then Some(rs[0])
    else
      var r := FindById(rs[1..], id);
      assert r.Some? ==> exists i :: 0 <= i < |rs| && rs[i] == r.value && forall j :: 0 <= j < i ==> rs[j].id != id by {
        if r.Some? {
          var i :| 0 <= i < |rs[1..]| && rs[1..][i] == r.value && forall j :: 0 <= j < i ==> rs[1..][j].id != id;
          assert rs[i + 1] == r.value;
          assert forall j :: 0 <= j < i + 1 ==> rs[j].id != id by {
            forall j | 0 <= j < i + 1 ensures rs[j].id != id {
              if j > 0 { assert rs[j] == rs[1..][j - 1]; }
            }
          }
        }
      }
      assert HasId(rs, id) ==> HasId(rs[1..], id) by {
        if HasId(rs, id) {
          var i :| 0 <= i < |rs| && rs[i].id == id;
          assert rs[1..][i - 1] == rs[i];
        }
      }
      r
  }

  /** `m[v]?.[id]`, for the vote map and the note map alike. */
  function At<V>(m: map<string, map<string, V>>, v: string, id: string): Option<V> {
    if v in m && id in m[v] then Some(m[v][id]) else None
  }

  /** `if (!m[v]) m[v] = {}` followed by setting (`Some`) or deleting (`None`)
      the one entry `m[v][id]`: the visitor's map exists afterwards, that
      entry holds `x`, and every other entry is as it was. */
  function Put<V>(m: map<string, map<string, V>>, v: string, id: string, x: Option<V>): (r: map<string, map<string, V>>)
    ensures r.Keys == m.Keys + {v}
    ensures At(r, v, id) == x
    ensures forall w, k :: w != v || k != id ==> At(r, w, k) == At(m, w, k)
  {
    var mine := if v in m then m[v] else map[];
    var mine' := if x.None? then mine - {id} else mine[id := x.value];
    m[v := mine']
  }

  /** Restaurant ids are unique. */
  predicate UniqueIds(rs: seq<Restaurant>) {
    forall i, j :: 0 <= i < j < |rs| ==> rs[i].id != rs[j].id
  }

  /** Every suggested restaurant's id is the slug of its name (the built-in
      ones carry hand-written ids). */
  predicate SuggestedIdsAreSlugs(rs: seq<Restaurant>) {
    forall i :: 0 <= i < |rs| && !rs[i].isDefault ==> rs[i].id == Slug(rs[i].name)
  }

  /** A stored note is never blank. */
  predicate NotesNonBlank(notes: Notes) {
    forall v, id :: v in notes && id in notes[v] ==> !IsBlank(notes[v][id])
  }

  /** The invariant the mutating operations keep. */
  predicate Valid(d: Document) {
    UniqueIds(d.restaurants) && SuggestedIdsAreSlugs(d.restaurants) && NotesNonBlank(d.notes)
  }

  /** A list of built-in restaurants only has no suggested id to check. */
  lemma BuiltInOnly(rs: seq<Restaurant>)
    requires forall i :: 0 <= i < |rs| ==> rs[i].isDefault
    ensures SuggestedIdsAreSlugs(rs)
  {
  }

  lemma DefaultsBuiltIn()
    ensures |Defaults()| == 7
    ensures forall i :: 0 <= i < |Defaults()| ==> Defaults()[i].isDefault
  {
  }

  lemma DefaultIdsUnique()
    ensures UniqueIds(Defaults())
  {
  }

  /** The seeded document satisfies the invariant: seven restaurants, all
      built-in, with unique ids, and no votes or notes. */
  lemma InitialValid()
    ensures Valid(Initial())
    ensures |Initial().restaurants| == 7
    ensures forall i :: 0 <= i < 7 ==> Initial().restaurants[i].isDefault
  {
    DefaultsBuiltIn();
    BuiltInOnly(Defaults());
    DefaultIdsUnique();
  }
}
