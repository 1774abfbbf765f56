/** The reply of `GET /api/restaurants`: every restaurant with its voters,
    notes, score and the viewer's own vote and note, sorted by score
    (highest first) and then by name. */
module Projection {
  import opened Wrappers
  import opened Model

  datatype NoteEntry = NoteEntry(author: string, text: string)

  /** One restaurant as the client sees it. */
  datatype View = View(
    restaurant: Restaurant,
    upvoters: seq<string>,
    downvoters: seq<string>,
    notes: seq<NoteEntry>,
    upvotes: int,
    downvotes: int,
    netScore: int,
    userVote: Option<Vote>,
    userNote: Option<string>)

  predicate Distinct<T(==)>(s: seq<T>) {
    forall i, j :: 0 <= i < j < |s| ==> s[i] != s[j]
  }

  /** The visitors whose vote for `id` is `v`. */
  function Voters(votes: Votes, id: string, v: Vote): set<string> {
    set w | w in votes && At(votes, w, id) == Some(v)
  }

  /** A list without repeats is as long as the set of its elements. */
  lemma {:induction false} DistinctCard<T>(s: seq<T>, xs: set<T>)
    requires Distinct(s)
    requires forall x :: x in s <==> x in xs
    ensures |s| == |xs|
    decreases |s|
  {
    if s != [] {
      var t := s[..|s| - 1];
      var last := s[|s| - 1];
      assert last !in t by {
        forall i | 0 <= i < |t| ensures t[i] != last {
          assert t[i] == s[i];
        }
      }
      forall x ensures x in t <==> x in xs - {last} {
        if x in t {
          var i :| 0 <= i < |t| && t[i] == x;
          assert s[i] == x;
        }
        if x in xs - {last} {
          assert x in s;
          var i :| 0 <= i < |s| && s[i] == x;
          assert i != |s| - 1;
          assert t[i] == x;
        }
      }
      DistinctCard(t, xs - {last});
    } else {
      assert forall x :: x !in xs;
      assert xs == {};
    }
  }

  /** Appending an element not yet present keeps a list free of repeats. */
  lemma DistinctSnoc<T>(s: seq<T>, x: T)
    requires Distinct(s) && x !in s
    ensures Distinct(s + [x])
  {
    var r := s + [x];
    forall i, j | 0 <= i < j < |r| ensures r[i] != r[j] {
      assert r[i] == s[i];
    }
  }

  /** `s` lists, each once, the visitors among `among` whose vote for `id` is `v`. */
  ghost predicate ListsVoters(s: seq<string>, votes: Votes, id: string, v: Vote, among: set<string>) {
    (forall w :: w in s <==> w in among && At(votes, w, id) == Some(v)) && Distinct(s)
  }

  /** One step of `CollectVotes`: visiting `w` keeps both lists correct. */
  lemma VisitVoter(s: seq<string>, votes: Votes, id: string, v: Vote, seen: set<string>, w: string)
    requires ListsVoters(s, votes, id, v, seen) && w !in seen
    ensures At(votes, w, id) == Some(v) ==> ListsVoters(s + [w], votes, id, v, seen + {w})
    ensures At(votes, w, id) != Some(v) ==> ListsVoters(s, votes, id, v, seen + {w})
  {
    if At(votes, w, id) == Some(v) {
      DistinctSnoc(s, w);
    }
  }

  /** The two `Object.entries(data.votes).forEach` pushes for one
      restaurant. The visitors are visited in an unspecified order. */
  method CollectVotes(votes: Votes, id: string) returns (up: seq<string>, down: seq<string>)
    ensures forall w :: w in up <==> w in Voters(votes, id, Up)
    ensures forall w :: w in down <==> w in Voters(votes, id, Down)
    ensures Distinct(up) && Distinct(down)
  {
    up, down := [], [];
    var todo := votes.Keys;
    ghost var seen: set<string> := {};
    while todo != {}
      invariant todo + seen == votes.Keys && todo !! seen
      invariant ListsVoters(up, votes, id, Up, seen)
      invariant ListsVoters(down, votes, id, Down, seen)
      decreases |todo|
    {
      var w :| w in todo;
      VisitVoter(up, votes, id, Up, seen, w);
      VisitVoter(down, votes, id, Down, seen, w);
      var v := At(votes, w, id);
      if v == Some(Up) {
        up := up + [w];
      } else if v == Some(Down) {
        down := down + [w];
      }
      todo := todo - {w};
      seen := seen + {w};
    }
    assert seen == votes.Keys;
  }

  /** The note entries of `notes` for `id` are exactly those of the authors
      with a non-empty note. */
  ghost predicate NoteEntriesOf(entries: seq<NoteEntry>, notes: Notes, id: string, authors: set<string>) {
    && (forall e :: e in entries ==> e.author in authors && At(notes, e.author, id) == Some(e.text) && e.text != "")
    && (forall w :: w in authors && At(notes, w, id).Some? && At(notes, w, id).value != "" ==>
          NoteEntry(w, At(notes, w, id).value) in entries)
  }

  /** Each author appears at most once. */
  predicate AuthorsDistinct(entries: seq<NoteEntry>) {
    forall i, j :: 0 <= i < j < |entries| ==> entries[i].author != entries[j].author
  }

  /** The `Object.entries(data.notes).forEach` push: one entry per visitor
      whose note for the restaurant is a non-empty string. */
  method CollectNotes(notes: Notes, id: string) returns (entries: seq<NoteEntry>)
    ensures NoteEntriesOf(entries, notes, id, notes.Keys)
    ensures AuthorsDistinct(entries)
  {
    entries := [];
    var todo := notes.Keys;
    ghost var seen: set<string> := {};
    while todo != {}
      invariant todo + seen == notes.Keys && todo !! seen
      invariant NoteEntriesOf(entries, notes, id, seen)
      invariant AuthorsDistinct(entries)
      decreases |todo|
    {
      var w :| w in todo;
      var n := At(notes, w, id);
      if n.Some? && n.value != "" {
        AddNoteEntry(entries, notes, id, seen, w);
        entries := entries + [NoteEntry(w, n.value)];
      } else {
        assert NoteEntriesOf(entries, notes, id, seen + {w});
      }
      todo := todo - {w};
      seen := seen + {w};
    }
  }

  /** One step of `CollectNotes` that records a new author. */
  lemma AddNoteEntry(entries: seq<NoteEntry>, notes: Notes, id: string, seen: set<string>, w: string)
    requires NoteEntriesOf(entries, notes, id, seen) && AuthorsDistinct(entries)
    requires w !in seen && At(notes, w, id).Some? && At(notes, w, id).value != ""
    ensures NoteEntriesOf(entries + [NoteEntry(w, At(notes, w, id).value)], notes, id, seen + {w})
    ensures AuthorsDistinct(entries + [NoteEntry(w, At(notes, w, id).value)])
  {
    var r := entries + [NoteEntry(w, At(notes, w, id).value)];
    forall i, j | 0 <= i < j < |r| ensures r[i].author != r[j].author {
      assert r[i] == entries[i];
      assert entries[i] in entries;
    }
  }

  /** `data.votes[visitorId]?.[id] || null`, and null without a visitor. */
  function UserVote(d: Document, visitor: string, id: string): Option<Vote> {
    if visitor == "" then None else At(d.votes, visitor, id)
  }

  /** `data.notes[visitorId]?.[id] || null`: an empty note is null too. */
  function UserNote(d: Document, visitor: string, id: string): Option<string> {
    if visitor == "" then None
    else match At(d.notes, visitor, id)
      case Some(t) => if t == "" then None else Some(t)
      case None => None
  }

  /** What a correct view of restaurant `r` holds: exactly the up and down
      voters, each once, one note entry per author, counts that are the
      lengths of the lists, and the viewer's own vote and note. */
  ghost predicate IsViewOf(view: View, d: Document, visitor: string, r: Restaurant) {
    && view.restaurant == r
    && (forall w :: w in view.upvoters <==> w in Voters(d.votes, r.id, Up))
    && (forall w :: w in view.downvoters <==> w in Voters(d.votes, r.id, Down))
    && Distinct(view.upvoters) && Distinct(view.downvoters)
    && NoteEntriesOf(view.notes, d.notes, r.id, d.notes.Keys)
    && AuthorsDistinct(view.notes)
    && view.upvotes == |view.upvoters|
    && view.downvotes == |view.downvoters|
    && view.netScore == view.upvotes - view.downvotes
    && view.userVote == UserVote(d, visitor, r.id)
    && view.userNote == UserNote(d, visitor, r.id)
  }

  /** The body of the `data.restaurants.map` callback. */
  method ViewOf(d: Document, visitor: string, r: Restaurant) returns (view: View)
    ensures IsViewOf(view, d, visitor, r)
  {
    var up, down := CollectVotes(d.votes, r.id);
    var notes := CollectNotes(d.notes, r.id);
    var netScore := |up| - |down|;
    var userVote, userNote := None, None;
    if visitor != "" {
      userVote := At(d.votes, visitor, r.id);
      userNote := UserNote(d, visitor, r.id);
    }
    view := View(r, up, down, notes, |up|, |down|, netScore, userVote, userNote);
  }

  /** The score does not depend on the order the visitors were visited in:
      it is the number of up voters minus the number of down voters. */
  lemma ScoreIsVoteBalance(view: View, d: Document, visitor: string, r: Restaurant)
    requires IsViewOf(view, d, visitor, r)
    ensures view.netScore == |Voters(d.votes, r.id, Up)| - |Voters(d.votes, r.id, Down)|
  {
    DistinctCard(view.upvoters, Voters(d.votes, r.id, Up));
    DistinctCard(view.downvoters, Voters(d.votes, r.id, Down));
  }

  /** No visitor is both an up voter and a down voter. */
  lemma VotersDisjoint(view: View, d: Document, visitor: string, r: Restaurant)
    requires IsViewOf(view, d, visitor, r)
    ensures forall w :: w in view.upvoters ==> w !in view.downvoters
  {
  }

  /** `data.restaurants.map(...)`. */
  method Project(d: Document, visitor: string) returns (views: seq<View>)
    ensures |views| == |d.restaurants|
    ensures forall i :: 0 <= i < |views| ==> IsViewOf(views[i], d, visitor, d.restaurants[i])
  {
    views := [];
    var i := 0;
    while i < |d.restaurants|
      invariant 0 <= i <= |d.restaurants| && |views| == i
      invariant forall k :: 0 <= k < i ==> IsViewOf(views[k], d, visitor, d.restaurants[k])
    {
      var view := ViewOf(d, visitor, d.restaurants[i]);
      views := views + [view];
      i := i + 1;
    }
  }

  // -------------------------------------------------------------------- sort

  /** Plain lexicographic order on code points, standing in for
      `a.localeCompare(b) <= 0`. */
  predicate NameLe(a: string, b: string)
    decreases |a|
  {
    a == [] || (b != [] && (a[0] < b[0] || (a[0] == b[0] && NameLe(a[1..], b[1..]))))
  }

  lemma {:induction false} NameLeTotal(a: string, b: string)
    ensures NameLe(a, b) || NameLe(b, a)
    decreases |a|
  {
    if a != [] && b != [] && a[0] == b[0] {
      NameLeTotal(a[1..], b[1..]);
    }
  }

  lemma {:induction false} NameLeTrans(a: string, b: string, c: string)
    requires NameLe(a, b) && NameLe(b, c)
    ensures NameLe(a, c)
    decreases |a|
  {
    if a != [] && a[0] == b[0] && b[0] == c[0] {
      NameLeTrans(a[1..], b[1..], c[1..]);
    }
  }

  lemma {:induction false} NameLeAntisym(a: string, b: string)
    requires NameLe(a, b) && NameLe(b, a)
    ensures a == b
    decreases |a|
  {
    if a != [] {
      NameLeAntisym(a[1..], b[1..]);
      assert a == [a[0]] + a[1..] && b == [b[0]] + b[1..];
    }
  }

  /** The comparator: `b.netScore - a.netScore`, then the names. `Before(x, y)`
      says `x` may come first. */
  predicate Before(x: View, y: View) {
    x.netScore > y.netScore || (x.netScore == y.netScore && NameLe(x.restaurant.name, y.restaurant.name))
  }

  lemma BeforeTotal(x: View, y: View)
    ensures Before(x, y) || Before(y, x)
  {
    NameLeTotal(x.restaurant.name, y.restaurant.name);
  }

  lemma BeforeTrans(x: View, y: View, z: View)
    requires Before(x, y) && Before(y, z)
    ensures Before(x, z)
  {
    if x.netScore == y.netScore == z.netScore {
      NameLeTrans(x.restaurant.name, y.restaurant.name, z.restaurant.name);
    }
  }

  /** Score never increases along the list, and names never decrease among
      equal scores. */
  predicate Sorted(s: seq<View>) {
    forall i, j :: 0 <= i < j < |s| ==> Before(s[i], s[j])
  }

  function Insert(x: View, s: seq<View>): (r: seq<View>)
    requires Sorted(s)
    ensures Sorted(r)
    ensures multiset(r) == multiset(s) + multiset{x}
  {
    if s == [] then [x]
    else if Before(x, s[0]) then
      InsertFront(x, s);
      [x] + s
    else
      var rest := Insert(x, s[1..]);
      BeforeTotal(x, s[0]);
      InsertBehind(s[0], x, s[1..], rest);
      assert s == [s[0]] + s[1..];
      [s[0]] + rest
  }

  lemma InsertFront(x: View, s: seq<View>)
    requires Sorted(s) && s != [] && Before(x, s[0])
    ensures Sorted([x] + s)
  {
    forall j | 0 < j < |s| ensures Before(x, s[j]) {
      BeforeTrans(x, s[0], s[j]);
    }
  }

  lemma InsertBehind(h: View, x: View, t: seq<View>, rest: seq<View>)
    requires Sorted([h] + t) && Sorted(rest) && Before(h, x)
    requires multiset(rest) == multiset(t) + multiset{x}
    ensures Sorted([h] + rest)
  {
    var r := [h] + rest;
    forall j | 1 <= j < |r| ensures Before(h, r[j]) {
      var y := rest[j - 1];
      assert r[j] == y;
      assert y in multiset(t) + multiset{x};
      if y != x {
        assert y in multiset(t);
        var k :| 0 <= k < |t| && t[k] == y;
        assert ([h] + t)[0] == h && ([h] + t)[k + 1] == y;
      }
    }
    forall i, j | 0 < i < j < |r| ensures Before(r[i], r[j]) {
      assert r[i] == rest[i - 1] && r[j] == rest[j - 1];
    }
  }

  /** The sort: sorted, and a permutation of its input. */
  function SortViews(s: seq<View>): (r: seq<View>)
    ensures Sorted(r)
    ensures multiset(r) == multiset(s)
  {
    if s == [] then []
    else
      assert s == [s[0]] + s[1..];
      Insert(s[0], SortViews(s[1..]))
  }

  function RestaurantsOf(vs: seq<View>): (rs: seq<Restaurant>)
    ensures |rs| == |vs|
  {
    seq(|vs|, i requires 0 <= i < |vs| => vs[i].restaurant)
  }

  lemma RestaurantsOfConcat(a: seq<View>, b: seq<View>)
    ensures RestaurantsOf(a + b) == RestaurantsOf(a) + RestaurantsOf(b)
  {
  }

  lemma RestaurantsOfSingle(x: View)
    ensures RestaurantsOf([x]) == [x.restaurant]
  {
  }

  /** Inserting a view adds its restaurant to the restaurants of the list. */
  lemma {:induction false} InsertRestaurants(x: View, s: seq<View>)
    requires Sorted(s)
    ensures multiset(RestaurantsOf(Insert(x, s))) == multiset(RestaurantsOf(s)) + multiset{x.restaurant}
    decreases |s|
  {
    RestaurantsOfSingle(x);
    if s != [] {
      if Before(x, s[0]) {
        RestaurantsOfConcat([x], s);
      } else {
        var rest := Insert(x, s[1..]);
        InsertRestaurants(x, s[1..]);
        assert s == [s[0]] + s[1..];
        RestaurantsOfSingle(s[0]);
        RestaurantsOfConcat([s[0]], rest);
        RestaurantsOfConcat([s[0]], s[1..]);
      }
    }
  }

  /** Sorting the views reorders their restaurants and nothing more. */
  lemma {:induction false} SortRestaurants(s: seq<View>)
    ensures multiset(RestaurantsOf(SortViews(s))) == multiset(RestaurantsOf(s))
    decreases |s|
  {
    if s != [] {
      SortRestaurants(s[1..]);
      InsertRestaurants(s[0], SortViews(s[1..]));
      assert s == [s[0]] + s[1..];
      RestaurantsOfSingle(s[0]);
      RestaurantsOfConcat([s[0]], s[1..]);
    }
  }

  /** The whole reply: one view per restaurant, in sorted order. */
  method Restaurants(d: Document, visitor: string) returns (out: seq<View>)
    ensures Sorted(out)
    ensures multiset(RestaurantsOf(out)) == multiset(d.restaurants)
    ensures forall i :: 0 <= i < |out| ==> IsViewOf(out[i], d, visitor, out[i].restaurant)
  {
    var views := Project(d, visitor);
    assert RestaurantsOf(views) == d.restaurants;
    out := SortViews(views);
    SortRestaurants(views);
    forall i | 0 <= i < |out| ensures IsViewOf(out[i], d, visitor, out[i].restaurant) {
      assert out[i] in multiset(views);
      var k :| 0 <= k < |views| && views[k] == out[i];
    }
  }
}
