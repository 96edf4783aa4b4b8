/** The note store of index.php: the whole collection is one sequence of
    records (what `getNotes` loads and `saveNotes` writes back), and every
    operation scans or rewrites it. Timestamps are the integers `strtotime`
    would give for the `date('Y-m-d H:i:s')` strings the source stores. */
module Notes {
  import opened Options
  import opened Seqs
  import Text

  datatype Note = Note(
    id: string,
    userId: string,
    title: string,
    content: string,
    category: string,
    isFavorite: bool,
    isPinned: bool,
    color: string,
    tags: seq<string>,
    createdAt: int,
    updatedAt: int,
    deletedAt: Option<int>)  // None: the note is live

  /** The record `createNote` appends: a live note of its owner, not a
      favourite, not pinned, white, untagged, created and updated `now`. */
  function NewNote(id: string, userId: string, title: string, content: string,
                   category: string, now: int): (n: Note)
    ensures ListedFor(userId)(n)
    ensures n.id == id && n.title == title && n.content == content && n.category == category
    ensures !n.isFavorite && !n.isPinned && n.color == "#ffffff" && n.tags == []
    ensures n.createdAt == now && n.updatedAt == now
  {
    Note(id, userId, title, content, category, false, false, "#ffffff", [], now, now, None)
  }

  /** The condition under which `createNote` sends its "important note" mail:
      the lower-cased category is "work" or "important", or the title
      contains "urgent" in any case. */
  predicate IsImportant(category: string, title: string)
    ensures IsImportant(category, title) <==>
              || Text.Lower(category) == "work"
              || Text.Lower(category) == "important"
              || exists i: nat :: Text.OccursAt(Text.Lower(title), "urgent", i)
  {
    assert Text.Lower("urgent") == "urgent";
    Text.Lower(category) in ["work", "important"] || Text.ContainsIgnoringCase(title, "urgent")
  }

  // ---------------------------------------------------------------- listing

  /** The test `getAllNotes` applies: the note belongs to the user and has
      no deletion time. */
  function ListedFor(userId: string): Note -> bool
  {
    (n: Note) => n.userId == userId && n.deletedAt.None?
  }

  /** What the accumulation loop of `getAllNotes` collects, before sorting. */
  function UserNotes(s: seq<Note>, userId: string): seq<Note>
  {
    Filter(s, ListedFor(userId))
  }

  /** The sort key of `getAllNotes`. */
  function Recency(n: Note): int
  {
    n.updatedAt
  }

  /** Most recently updated first; notes with equal `updated_at` in any order. */
  ghost predicate NewestFirst(l: seq<Note>)
  {
    SortedDesc(l, Recency)
  }

  /** `l` is a possible result of `getAllNotes(userId)` on the collection `s`:
      exactly the user's live notes, each as often as stored, newest first. */
  ghost predicate IsListing(l: seq<Note>, s: seq<Note>, userId: string)
  {
    multiset(l) == multiset(UserNotes(s, userId)) && NewestFirst(l)
  }

  /** A listing holds a note exactly when it is one of the user's live notes. */
  lemma ListingMembership(l: seq<Note>, s: seq<Note>, userId: string)
    requires IsListing(l, s, userId)
    ensures forall n :: n in l <==> n in s && n.userId == userId && n.deletedAt.None?
  {
    forall n
      ensures n in l <==> n in UserNotes(s, userId)
    {
      assert n in l <==> n in multiset(l);
    }
  }

  /** The notes `searchNotes` keeps: title or content contains the query,
      ignoring case. An empty query matches every note. */
  function QueryHit(query: string): Note -> bool
  {
    (n: Note) => Text.ContainsIgnoringCase(n.title, query) || Text.ContainsIgnoringCase(n.content, query)
  }

  /** A note is a hit exactly when the lower-cased query occurs in its
      lower-cased title or in its lower-cased content. */
  lemma QueryHitMeaning(query: string, n: Note)
    ensures QueryHit(query)(n) <==>
              || (exists i: nat :: Text.OccursAt(Text.Lower(n.title), Text.Lower(query), i))
              || (exists i: nat :: Text.OccursAt(Text.Lower(n.content), Text.Lower(query), i))
  {
    Text.ContainsIgnoringCaseMeaning(n.title, query);
    Text.ContainsIgnoringCaseMeaning(n.content, query);
  }

  // --------------------------------------------------------- point updates

  /** The id/owner test of the update, delete and toggle loops. It does not
      look at `deleted_at`, so a soft-deleted note still matches, and no
      change alters whether a note matches. */
  predicate Matches(n: Note, id: string, userId: string)
    ensures forall c: Change, now: int ::
              Matches(n, id, userId) <==> Apply(c, n, now).id == id && Apply(c, n, now).userId == userId
  {
    n.id == id && n.userId == userId
  }

  /** The test of `getNoteById`, which also wants the note live: a note it
      returns is one `getAllNotes` lists for the same user. */
  predicate Retrievable(n: Note, id: string, userId: string)
    ensures Retrievable(n, id, userId) <==> n.id == id && ListedFor(userId)(n)
  {
    Matches(n, id, userId) && n.deletedAt.None?
  }

  /** Position of the first note matching id and owner, or |s| if none. */
  function FirstMatch(s: seq<Note>, id: string, userId: string): (k: nat)
    ensures k <= |s|
    ensures k < |s| ==> Matches(s[k], id, userId)
    ensures forall j :: 0 <= j < k ==> !Matches(s[j], id, userId)
  {
    if s == [] then 0
    else if Matches(s[0], id, userId) then 0
    else 1 + FirstMatch(s[1..], id, userId)
  }

  /** The four in-place edits of the source, each applied to one note. */
  datatype Change =
    | Edit(title: string, content: string, category: string)  // updateNote
    | SoftDelete                                              // deleteNote
    | ToggleFavorite                                          // toggleFavorite
    | TogglePin                                               // togglePin

  /** The note after `c` at time `now`. Id, owner, creation time, colour and
      tags never change; every change except the soft delete refreshes
      `updated_at` and keeps `deleted_at`; the soft delete sets `deleted_at`
      and keeps `updated_at`. */
  function Apply(c: Change, n: Note, now: int): (m: Note)
    ensures m.id == n.id && m.userId == n.userId && m.createdAt == n.createdAt
    ensures m.color == n.color && m.tags == n.tags
    ensures c.SoftDelete? ==> m.updatedAt == n.updatedAt && m.deletedAt == Some(now)
    ensures !c.SoftDelete? ==> m.updatedAt == now && m.deletedAt == n.deletedAt
  {
    match c
    case Edit(title, content, category) =>
      n.(title := title, content := content, category := category, updatedAt := now)
    case SoftDelete => n.(deletedAt := Some(now))
    case ToggleFavorite => n.(isFavorite := !n.isFavorite, updatedAt := now)
    case TogglePin => n.(isPinned := !n.isPinned, updatedAt := now)
  }

  /** The collection after the update loops, which stop at the first match
      and change the note in place: the first note matching id and owner gets `c`, nothing else moves. */
  function ChangeFirst(s: seq<Note>, id: string, userId: string, c: Change, now: int): (r: seq<Note>)
    ensures |r| == |s|
    ensures forall j :: 0 <= j < |s| && r[j] != s[j] ==>
              && Matches(s[j], id, userId)
              && (forall i :: 0 <= i < j ==> !Matches(s[i], id, userId))
              && r[j] == Apply(c, s[j], now)
    ensures forall j ::
              (0 <= j < |s| && Matches(s[j], id, userId) && forall i :: 0 <= i < j ==> !Matches(s[i], id, userId))
              ==> r[j] == Apply(c, s[j], now)
  {
    var k := FirstMatch(s, id, userId);
    if k < |s| then s[k := Apply(c, s[k], now)] else s
  }

  /** Every id appears at most once (ids come from `uniqid()`). */
  ghost predicate UniqueIds(s: seq<Note>)
  {
    forall i, j :: 0 <= i < j < |s| ==> s[i].id != s[j].id
  }

  /** A change never moves which note is the first match, since it keeps id
      and owner. */
  lemma {:induction false} FirstMatchUnchanged(s: seq<Note>, id: string, userId: string, c: Change, now: int)
    ensures FirstMatch(ChangeFirst(s, id, userId, c, now), id, userId) == FirstMatch(s, id, userId)
  {
    var k := FirstMatch(s, id, userId);
    var r := ChangeFirst(s, id, userId, c, now);
    var k' := FirstMatch(r, id, userId);
    if k < |s| {
      assert r[k] == Apply(c, s[k], now);
    } else {
      assert r == s;
    }
  }

  /** Toggling the same flag twice restores it: afterwards every note equals
      the original, except that the first match carries the second toggle's
      `updated_at`. */
  lemma ToggleTwiceRestores(s: seq<Note>, id: string, userId: string, c: Change, t1: int, t2: int)
    requires c == ToggleFavorite || c == TogglePin
    ensures var r := ChangeFirst(ChangeFirst(s, id, userId, c, t1), id, userId, c, t2);
            && |r| == |s|
            && forall j :: 0 <= j < |s| ==> r[j] == s[j] || r[j] == s[j].(updatedAt := t2)
  {
    var r1 := ChangeFirst(s, id, userId, c, t1);
    var r2 := ChangeFirst(r1, id, userId, c, t2);
    var k := FirstMatch(s, id, userId);
    FirstMatchUnchanged(s, id, userId, c, t1);
    if k < |s| {
      assert r1 == s[k := Apply(c, s[k], t1)];
      assert r2 == r1[k := Apply(c, r1[k], t2)];
      assert r2[k] == s[k].(updatedAt := t2);
    } else {
      assert r1 == s && r2 == s;
    }
  }

  /** After a soft delete, no note with that id is live for that owner any
      more: it is gone from the listing and from `getNoteById`, while the
      record itself stays stored with only `deleted_at` set. */
  lemma SoftDeleteHides(s: seq<Note>, id: string, userId: string, now: int)
    requires UniqueIds(s)
    ensures var r := ChangeFirst(s, id, userId, SoftDelete, now);
            && (forall n :: n in r && Matches(n, id, userId) ==> n.deletedAt.Some?)
            && (forall n :: n in UserNotes(r, userId) ==> n.id != id)
  {
    var r := ChangeFirst(s, id, userId, SoftDelete, now);
    var k := FirstMatch(s, id, userId);
    forall n | n in r && Matches(n, id, userId)
      ensures n.deletedAt.Some?
    {
      var j :| 0 <= j < |r| && r[j] == n;
      assert j == k;
    }
  }

  /** The front of the listing: a change other than the soft delete, made
      at a time later than any of the user's live notes was updated, puts
      the changed note first in every listing, provided it was live. */
  lemma ChangedNoteListedFirst(s: seq<Note>, id: string, userId: string, c: Change, now: int, l: seq<Note>)
    requires !c.SoftDelete?
    requires FirstMatch(s, id, userId) < |s| && s[FirstMatch(s, id, userId)].deletedAt.None?
    requires forall n :: n in UserNotes(s, userId) ==> n.updatedAt < now
    requires IsListing(l, ChangeFirst(s, id, userId, c, now), userId)
    ensures l[0] == Apply(c, s[FirstMatch(s, id, userId)], now)
  {
    var r := ChangeFirst(s, id, userId, c, now);
    var k := FirstMatch(s, id, userId);
    var x := Apply(c, s[k], now);
    ListingMembership(l, r, userId);
    assert r[k] == x;
    forall y | y in l && y != x
      ensures Recency(y) < Recency(x)
    {
      var j :| 0 <= j < |r| && r[j] == y;
      assert r[j] == s[j];
      assert s[j] in UserNotes(s, userId);
    }
    StrictMaximumComesFirst(l, Recency, x);
  }

  /** A note created at a time later than any of the user's live notes was
      updated comes first in every listing that follows. */
  lemma CreatedNoteListedFirst(s: seq<Note>, id: string, userId: string, title: string,
                               content: string, category: string, now: int, l: seq<Note>)
    requires forall n :: n in UserNotes(s, userId) ==> n.updatedAt < now
    requires IsListing(l, s + [NewNote(id, userId, title, content, category, now)], userId)
    ensures l[0] == NewNote(id, userId, title, content, category, now)
  {
    var x := NewNote(id, userId, title, content, category, now);
    ListingMembership(l, s + [x], userId);
    forall y | y in l && y != x
      ensures Recency(y) < Recency(x)
    {
      assert y in s;
      assert y in UserNotes(s, userId);
    }
    StrictMaximumComesFirst(l, Recency, x);
  }

  /** `searchNotes` keeps exactly the listed notes that contain the query,
      in the listing's order, so its result is newest first too. */
  lemma SearchKeepsListingOrder(l: seq<Note>, s: seq<Note>, userId: string, query: string)
    requires IsListing(l, s, userId)
    ensures IsSubsequence(Filter(l, QueryHit(query)), l)
    ensures NewestFirst(Filter(l, QueryHit(query)))
    ensures forall n :: n in Filter(l, QueryHit(query)) <==>
              n in UserNotes(s, userId) && QueryHit(query)(n)
  {
    FilterIsSubsequence(l, QueryHit(query));
    SubsequenceKeepsSortedDesc(Filter(l, QueryHit(query)), l, Recency);
    ListingMembership(l, s, userId);
  }

  /** The empty query keeps the whole listing. */
  lemma {:induction false} EmptyQueryKeepsAll(l: seq<Note>)
    ensures Filter(l, QueryHit("")) == l
  {
    if l != [] {
      var init := l[..|l| - 1];
      assert l == init + [l[|l| - 1]];
      EmptyQueryKeepsAll(init);
      Text.EmptyNeedleAlwaysFound(l[|l| - 1].title);
    }
  }

  /** Importance does not depend on letter case. */
  lemma ImportanceIgnoresCase(category: string, title: string)
    ensures IsImportant(Text.Lower(category), Text.Lower(title)) == IsImportant(category, title)
  {
    Text.LowerIdempotent(category);
    Text.StriposIgnoresCase(title, "urgent");
    Text.LowerIdempotent(title);
  }

  /** The notes collection, updated in place by every operation. */
  class NoteStore {
    var notes: seq<Note>

    /** An empty notes file. */
    constructor ()
      ensures notes == []
    {
      notes := [];
    }

    /** `getAllNotes`: the user's live notes, newest first. */
    method GetAllNotes(userId: string) returns (r: seq<Note>)
      ensures IsListing(r, notes, userId)
    {
      var userNotes: seq<Note> := [];
      var i := 0;
      while i < |notes|
        invariant i <= |notes|
        invariant userNotes == UserNotes(notes[..i], userId)
      {
        assert notes[..i + 1] == notes[..i] + [notes[i]];
        FilterSnoc(notes[..i], notes[i], ListedFor(userId));
        if notes[i].userId == userId && notes[i].deletedAt.None? {
          userNotes := userNotes + [notes[i]];
        }
        i := i + 1;
      }
      assert notes[..i] == notes;
      r := SortNewestFirst(userNotes);
    }

    /** `getNoteById`: the first note with this id and owner that is live,
        or null. Another user's note is never returned. */
    method GetNoteById(id: string, userId: string) returns (r: Option<Note>)
      ensures r.Some? ==>
                exists k :: (0 <= k < |notes| && notes[k] == r.value && Retrievable(notes[k], id, userId)
                             && forall j :: 0 <= j < k ==> !Retrievable(notes[j], id, userId))
      ensures r.None? ==> forall n :: n in notes ==> !Retrievable(n, id, userId)
    {
      var i := 0;
      while i < |notes|
        invariant i <= |notes|
        invariant forall j :: 0 <= j < i ==> !Retrievable(notes[j], id, userId)
      {
        if notes[i].id == id && notes[i].userId == userId && notes[i].deletedAt.None? {
          return Some(notes[i]);
        }
        i := i + 1;
      }
      return None;
    }

    /** `createNote`: appends one fresh note and returns its id. `important`
        tells whether the source would send its "important note" mail. */
    method CreateNote(freshId: string, now: int, userId: string, title: string,
                      content: string, category: string := "general")
      returns (id: string, important: bool)
      modifies this
      ensures id == freshId
      ensures |notes| == |old(notes)| + 1 && notes[..|old(notes)|] == old(notes)
      ensures var n := notes[|notes| - 1];
              && n.id == freshId && n.userId == userId
              && n.title == title && n.content == content && n.category == category
              && !n.isFavorite && !n.isPinned && n.deletedAt.None?
              && n.createdAt == now && n.updatedAt == now
      ensures notes == old(notes) + [NewNote(freshId, userId, title, content, category, now)]
      ensures important == IsImportant(category, title)
    {
      var newNote := NewNote(freshId, userId, title, content, category, now);
      notes := notes + [newNote];
      important := IsImportant(category, title);
      id := newNote.id;
    }

    /** The shared loop of the four mutators: change the first note matching
        id and owner, then stop. */
    method ChangeFirstMatch(id: string, userId: string, c: Change, now: int)
      modifies this
      ensures notes == ChangeFirst(old(notes), id, userId, c, now)
    {
      var i := 0;
      while i < |notes|
        invariant i <= |notes| && notes == old(notes)
        invariant forall j :: 0 <= j < i ==> !Matches(notes[j], id, userId)
      {
        if notes[i].id == id && notes[i].userId == userId {
          assert FirstMatch(notes, id, userId) == i;
          notes := notes[i := Apply(c, notes[i], now)];
          return;
        }
        i := i + 1;
      }
    }

    /** `updateNote`: new title, content and category on the first match,
        whether or not it is deleted; always reports success. */
    method UpdateNote(id: string, userId: string, title: string, content: string,
                      category: string, now: int) returns (ok: bool)
      modifies this
      ensures ok
      ensures notes == ChangeFirst(old(notes), id, userId, Edit(title, content, category), now)
    {
      ChangeFirstMatch(id, userId, Edit(title, content, category), now);
      ok := true;
    }

    /** `deleteNote`: sets `deleted_at` on the first match and keeps the
        record; always reports success. */
    method DeleteNote(id: string, userId: string, now: int) returns (ok: bool)
      modifies this
      ensures ok
      ensures |notes| == |old(notes)|
      ensures notes == ChangeFirst(old(notes), id, userId, SoftDelete, now)
    {
      ChangeFirstMatch(id, userId, SoftDelete, now);
      ok := true;
    }

    /** `toggleFavorite`: flips `is_favorite` on the first match. */
    method ToggleFavorite(id: string, userId: string, now: int) returns (ok: bool)
      modifies this
      ensures ok
      ensures notes == ChangeFirst(old(notes), id, userId, Change.ToggleFavorite, now)
    {
      ChangeFirstMatch(id, userId, Change.ToggleFavorite, now);
      ok := true;
    }

    /** `togglePin`: flips `is_pinned` on the first match. */
    method TogglePin(id: string, userId: string, now: int) returns (ok: bool)
      modifies this
      ensures ok
      ensures notes == ChangeFirst(old(notes), id, userId, Change.TogglePin, now)
    {
      ChangeFirstMatch(id, userId, Change.TogglePin, now);
      ok := true;
    }

    /** `searchNotes`: filters the listing `getAllNotes` gives (returned as
        the ghost `listing`) down to the notes whose title or content
        contains the query, keeping the listing's order. */
    method SearchNotes(userId: string, query: string) returns (results: seq<Note>, ghost listing: seq<Note>)
      ensures IsListing(listing, notes, userId)
      ensures results == Filter(listing, QueryHit(query))
      ensures forall n :: n in results <==> n in UserNotes(notes, userId) && QueryHit(query)(n)
      ensures NewestFirst(results)
    {
      var all := GetAllNotes(userId);
      listing := all;
      results := KeepMatching(all, query);
      SearchKeepsListingOrder(all, notes, userId, query);
    }
  }

  /** The loop of `searchNotes`: keeps the notes whose title or content
      contains the query, ignoring case, in their order. */
  method KeepMatching(all: seq<Note>, query: string) returns (results: seq<Note>)
    ensures results == Filter(all, QueryHit(query))
  {
    results := [];
    var i := 0;
    while i < |all|
      invariant i <= |all|
      invariant results == Filter(all[..i], QueryHit(query))
    {
      var n := all[i];
      assert all[..i + 1] == all[..i] + [n];
      FilterSnoc(all[..i], n, QueryHit(query));
      if Text.ContainsIgnoringCase(n.title, query) || Text.ContainsIgnoringCase(n.content, query) {
        results := results + [n];
      }
      i := i + 1;
    }
    assert all[..i] == all;
  }

  /** The `usort` of `getAllNotes`, which compares the parsed `updated_at`
      times with the later one first: a permutation of the input, newest first. */
  method SortNewestFirst(s: seq<Note>) returns (r: seq<Note>)
    ensures multiset(r) == multiset(s)
    ensures NewestFirst(r)
  {
    r := [];
    for i := 0 to |s|
      invariant multiset(r) == multiset(s[..i])
      invariant NewestFirst(r)
    {
      assert s[..i + 1] == s[..i] + [s[i]];
      r := InsertNewestFirst(r, s[i]);
    }
    assert s[..|s|] == s;
  }

  /** One step of the sort: puts `x` after every note at least as recent. */
  method InsertNewestFirst(r: seq<Note>, x: Note) returns (r': seq<Note>)
    requires NewestFirst(r)
    ensures multiset(r') == multiset(r) + multiset{x}
    ensures NewestFirst(r')
  {
    var j := 0;
    while j < |r| && r[j].updatedAt >= x.updatedAt
      invariant j <= |r|
      invariant forall k :: 0 <= k < j ==> Recency(r[k]) >= Recency(x)
    {
      j := j + 1;
    }
    InsertKeepsSortedDesc(r, j, x, Recency);
    assert r == r[..j] + r[j..];
    r' := r[..j] + [x] + r[j..];
  }
}
