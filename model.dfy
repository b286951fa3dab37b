/**
 * Per-topic logs and the local model (src/model.rs).
 *
 * A `Topic` owns an ordered map from creation time to signed note; a `Model`
 * owns one `Topic` per topic name. Both are updated in place, so both are
 * classes; `Notes` values and the functions over them say what the updates do.
 */
module Model {
  import N = Note

  /** The contents of a topic: `BTreeMap<PrimitiveDateTime, Signed<Note>>`. */
  type Notes = map<N.Timestamp, N.Signed<N.Note>>

  /** Every entry is stored under its own note's creation time. */
  ghost predicate KeyedByCreation(notes: Notes) {
    forall t :: t in notes ==> notes[t].inner.createdAt == t
  }

  /** `notes.insert(note.inner.created_at, note)`: insert, overwriting any entry at that time. */
  function WithNote(notes: Notes, note: N.Signed<N.Note>): (r: Notes)
    ensures note.inner.createdAt in r && r[note.inner.createdAt] == note
    ensures forall t :: t != note.inner.createdAt ==> (t in r <==> t in notes)
    ensures forall t :: t != note.inner.createdAt && t in notes ==> r[t] == notes[t]
    ensures |r| == if note.inner.createdAt in notes then |notes| else |notes| + 1
    ensures KeyedByCreation(notes) ==> KeyedByCreation(r)
  {
    var r := notes[note.inner.createdAt := note];
    assert r.Keys == notes.Keys + {note.inner.createdAt};
    r
  }

  /** Adding the same note twice leaves the topic as adding it once. */
  lemma WithNoteIdempotent(notes: Notes, note: N.Signed<N.Note>)
    ensures WithNote(WithNote(notes, note), note) == WithNote(notes, note)
  {
  }

  /** Notes with different creation times can be added in either order. */
  lemma WithNoteCommutes(notes: Notes, a: N.Signed<N.Note>, b: N.Signed<N.Note>)
    requires a.inner.createdAt != b.inner.createdAt
    ensures WithNote(WithNote(notes, a), b) == WithNote(WithNote(notes, b), a)
  {
  }

  /** Two notes with the same creation time: the one added last is the one kept. */
  lemma WithNoteLastArrivalWins(notes: Notes, a: N.Signed<N.Note>, b: N.Signed<N.Note>)
    requires a.inner.createdAt == b.inner.createdAt
    ensures WithNote(WithNote(notes, a), b) == WithNote(notes, b)
    ensures a != b ==> WithNote(WithNote(notes, a), b) != WithNote(WithNote(notes, b), a)
  {
    var t := a.inner.createdAt;
    assert WithNote(WithNote(notes, b), a)[t] == a;
  }

  // ---------------------------------------------------------------------------
  // Iteration order of a topic

  /** A non-empty set of timestamps has a member. */
  lemma NonEmptyHasMember(keys: set<N.Timestamp>)
    requires keys != {}
    ensures exists t :: t in keys
  {
    if forall t :: t !in keys {
      assert false;
    }
  }

  /** Every non-empty set of timestamps has an earliest one. */
  lemma {:induction false} EarliestExists(keys: set<N.Timestamp>)
    requires keys != {}
    ensures exists t :: t in keys && forall u :: u in keys ==> t <= u
    decreases keys
  {
    NonEmptyHasMember(keys);
    var some :| some in keys;
    var others := keys - {some};
    if others == {} {
      forall u | u in keys
        ensures some <= u
      {
        assert u !in others;
      }
    } else {
      EarliestExists(others);
      var rest :| rest in others && forall u :: u in others ==> rest <= u;
      var least := if some <= rest then some else rest;
      forall u | u in keys
        ensures least <= u
      {
        if u != some {
          assert u in others;
        }
      }
      assert least in keys;
    }
  }

  /** The earliest of a non-empty set of timestamps. */
  ghost function Earliest(keys: set<N.Timestamp>): (t: N.Timestamp)
    requires keys != {}
    ensures t in keys
    ensures forall u :: u in keys ==> t <= u
  {
    EarliestExists(keys);
    var t :| t in keys && forall u :: u in keys ==> t <= u;
    t
  }

  /** The timestamps of a set in strictly ascending order. */
  ghost function AscendingKeys(keys: set<N.Timestamp>): (r: seq<N.Timestamp>)
    ensures |r| == |keys|
    ensures forall t :: t in keys <==> t in r
    ensures forall i, j :: 0 <= i < j < |r| ==> r[i] < r[j]
    decreases keys
  {
    if keys == {} then []
    else
      var first := Earliest(keys);
      var rest := AscendingKeys(keys - {first});
      assert forall i :: 0 <= i < |rest| ==> first < rest[i];
      [first] + rest
  }

  /** `notes.values()`: the notes in the order a `BTreeMap` yields them, ascending by key. */
  ghost function Values(notes: Notes): (r: seq<N.Signed<N.Note>>)
    ensures |r| == |notes.Keys|
    ensures forall i :: 0 <= i < |r| ==> r[i] in notes.Values
  {
    var keys := AscendingKeys(notes.Keys);
    seq(|keys|, i requires 0 <= i < |keys| => notes[keys[i]])
  }

  /** The i-th note `values()` yields is the one stored under the i-th key. */
  lemma ValueAt(notes: Notes, i: int)
    requires 0 <= i < |notes.Keys|
    ensures AscendingKeys(notes.Keys)[i] in notes
    ensures Values(notes)[i] == notes[AscendingKeys(notes.Keys)[i]]
  {
  }

  /** A topic's notes come out once each, in strictly ascending creation time. */
  lemma ValuesAscendByCreation(notes: Notes)
    requires KeyedByCreation(notes)
    ensures |Values(notes)| == |notes|
    ensures forall n :: n in Values(notes) <==> n in notes.Values
    ensures forall i, j :: 0 <= i < j < |Values(notes)|
              ==> Values(notes)[i].inner.createdAt < Values(notes)[j].inner.createdAt
  {
    var keys := AscendingKeys(notes.Keys);
    var vs := Values(notes);
    assert |notes.Keys| == |notes|;
    forall i, j | 0 <= i < j < |vs|
      ensures vs[i].inner.createdAt < vs[j].inner.createdAt
    {
      ValueAt(notes, i);
      ValueAt(notes, j);
    }
    forall n | n in notes.Values
      ensures n in vs
    {
      var t :| t in notes && notes[t] == n;
      var i :| 0 <= i < |keys| && keys[i] == t;
      ValueAt(notes, i);
    }
  }

  // ---------------------------------------------------------------------------
  // Topic and Model

  /** One topic's log, updated in place by `add_note`. */
  class Topic {
    var notes: Notes

    ghost predicate Valid()
      reads this
    {
      KeyedByCreation(notes)
    }

    /** `Topic::new()` / `Topic::default()`: no notes. */
    constructor ()
      ensures Valid()
      ensures notes == map[]
    {
      notes := map[];
    }

    /** `Topic::add_note`. */
    method AddNote(note: N.Signed<N.Note>)
      modifies this
      ensures notes == WithNote(old(notes), note)
      ensures old(Valid()) ==> Valid()
    {
      notes := notes[note.inner.createdAt := note];
    }
  }

  /** The topic a model holds for `name`, or the default (empty) one. */
  function TopicOrDefault(contents: map<string, Notes>, name: string): (notes: Notes) {
    if name in contents then contents[name] else map[]
  }

  /** `model.topics.entry(note.inner.topic).or_default().add_note(note)` on the model's contents. */
  function Merged(contents: map<string, Notes>, note: N.Signed<N.Note>): (r: map<string, Notes>)
    ensures note.inner.topic in r && note.inner.createdAt in r[note.inner.topic]
    ensures r[note.inner.topic][note.inner.createdAt] == note
  {
    contents[note.inner.topic := WithNote(TopicOrDefault(contents, note.inner.topic), note)]
  }

  /** Merging the same note twice leaves the model as merging it once. */
  lemma MergedIdempotent(contents: map<string, Notes>, note: N.Signed<N.Note>)
    ensures Merged(Merged(contents, note), note) == Merged(contents, note)
  {
    WithNoteIdempotent(TopicOrDefault(contents, note.inner.topic), note);
  }

  /** Notes for different topics, or for one topic at different times, merge in either order. */
  lemma MergedCommutes(contents: map<string, Notes>, a: N.Signed<N.Note>, b: N.Signed<N.Note>)
    requires a.inner.topic != b.inner.topic || a.inner.createdAt != b.inner.createdAt
    ensures Merged(Merged(contents, a), b) == Merged(Merged(contents, b), a)
  {
    if a.inner.topic == b.inner.topic {
      WithNoteCommutes(TopicOrDefault(contents, a.inner.topic), a, b);
    }
  }

  /** Two notes for one topic at one time: the later merge wins, so order matters. */
  lemma MergedLastArrivalWins(contents: map<string, Notes>, a: N.Signed<N.Note>, b: N.Signed<N.Note>)
    requires a.inner.topic == b.inner.topic && a.inner.createdAt == b.inner.createdAt
    ensures Merged(Merged(contents, a), b) == Merged(contents, b)
    ensures a != b ==> Merged(Merged(contents, a), b) != Merged(Merged(contents, b), a)
  {
    WithNoteLastArrivalWins(TopicOrDefault(contents, a.inner.topic), a, b);
    if a != b {
      assert Merged(Merged(contents, a), b)[a.inner.topic] != Merged(Merged(contents, b), a)[a.inner.topic];
    }
  }

  /** The local view: topic name to its log. */
  class Model {
    var topics: map<string, Topic>

    /** Each name owns its own `Topic` (no two names share one), and each topic is keyed by creation time. */
    ghost predicate Valid()
      reads this, topics.Values
    {
      && (forall a, b :: a in topics && b in topics && a != b ==> topics[a] != topics[b])
      && (forall name :: name in topics ==> topics[name].Valid())
    }

    /** The contents of every topic, by name. */
    ghost function Contents(): (contents: map<string, Notes>)
      reads this, topics.Values
    {
      map name | name in topics :: topics[name].notes
    }

    /** `Model::new()`: no topics. */
    constructor ()
      ensures Valid()
      ensures topics == map[]
      ensures Contents() == map[]
    {
      topics := map[];
    }

    /** Merge a note into the topic it names, creating that topic empty first when absent. */
    method Merge(note: N.Signed<N.Note>)
      requires Valid()
      modifies this, topics.Values
      ensures Valid()
      ensures fresh(topics.Values - old(topics.Values))
      ensures Contents() == Merged(old(Contents()), note)
    {
      if note.inner.topic in topics {
        AddToExisting(note);
      } else {
        AddToNew(note);
      }
    }

    /** The topic exists: `add_note` on it, in place. */
    method AddToExisting(note: N.Signed<N.Note>)
      requires Valid() && note.inner.topic in topics
      modifies topics.Values
      ensures Valid() && topics == old(topics)
      ensures Contents() == Merged(old(Contents()), note)
    {
      var name := note.inner.topic;
      ghost var after := Merged(Contents(), note);
      var topic := topics[name];
      topic.AddNote(note);
      forall other | other in topics
        ensures topics[other].notes == after[other] && topics[other].Valid()
      {
        if other != name {
          assert topics[other] != topic;
        }
      }
      assert Contents().Keys == after.Keys;
    }

    /** The topic is absent: `or_default()` creates it empty, then `add_note`. */
    method AddToNew(note: N.Signed<N.Note>)
      requires Valid() && note.inner.topic !in topics
      modifies this
      ensures Valid()
      ensures fresh(topics.Values - old(topics.Values))
      ensures Contents() == Merged(old(Contents()), note)
    {
      var name := note.inner.topic;
      ghost var after := Merged(Contents(), note);
      var topic := new Topic();
      topic.AddNote(note);
      topics := topics[name := topic];
      forall other | other in topics
        ensures topics[other].notes == after[other] && topics[other].Valid()
      {
      }
      assert topic !in old(topics.Values);
      assert Contents().Keys == after.Keys;
    }
  }

  /** Merging touches only the note's own topic: it exists afterwards, holds the note, and every other topic is as it was. */
  lemma MergedChangesOnlyItsTopic(contents: map<string, Notes>, note: N.Signed<N.Note>)
    ensures Merged(contents, note).Keys == contents.Keys + {note.inner.topic}
    ensures Merged(contents, note)[note.inner.topic] == WithNote(TopicOrDefault(contents, note.inner.topic), note)
    ensures forall name :: name in contents && name != note.inner.topic ==> Merged(contents, note)[name] == contents[name]
  {
  }

  // ---------------------------------------------------------------------------
  // Scenarios

  /** The same signed note delivered twice leaves one entry in its topic. */
  lemma DuplicateDeliveryStoredOnce(note: N.Signed<N.Note>)
    ensures var contents := Merged(Merged(map[], note), note);
            contents.Keys == {note.inner.topic} && |contents[note.inner.topic]| == 1
  {
    MergedIdempotent(map[], note);
  }

  /** Two timestamps come out earlier first. */
  lemma AscendingPair(p: N.Timestamp, q: N.Timestamp)
    requires p < q
    ensures AscendingKeys({p, q}) == [p, q]
  {
    var keys := AscendingKeys({p, q});
    assert |{p, q}| == 2;
    assert keys[0] in {p, q} && keys[1] in {p, q};
  }

  /** A topic holding exactly two notes iterates as [earlier, later]. */
  lemma TwoEntryValues(notes: Notes, x: N.Signed<N.Note>, y: N.Signed<N.Note>)
    requires x.inner.createdAt < y.inner.createdAt
    requires notes == map[x.inner.createdAt := x, y.inner.createdAt := y]
    ensures Values(notes) == [x, y]
  {
    assert notes.Keys == {x.inner.createdAt, y.inner.createdAt};
    AscendingPair(x.inner.createdAt, y.inner.createdAt);
    ValueAt(notes, 0);
    ValueAt(notes, 1);
  }

  /** Two notes for one topic at times t0 < t1, merged in either order, iterate as [earlier, later]. */
  lemma TwoNotesIterateInTimeOrder(a: N.Signed<N.Note>, b: N.Signed<N.Note>)
    requires a.inner.topic == b.inner.topic
    requires a.inner.createdAt < b.inner.createdAt
    ensures Values(Merged(Merged(map[], a), b)[a.inner.topic]) == [a, b]
    ensures Values(Merged(Merged(map[], b), a)[a.inner.topic]) == [a, b]
  {
    MergedCommutes(map[], a, b);
    var notes := Merged(Merged(map[], a), b)[a.inner.topic];
    assert notes == map[a.inner.createdAt := a, b.inner.createdAt := b];
    TwoEntryValues(notes, a, b);
  }
}
