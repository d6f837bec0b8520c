/** Grouping changed series by subscriber (src/notify/mod.rs, the loop that
    fills `users_to_entries`): every (entry, subscriber) pair, in entry order
    and then subscriber order, is folded into one group per user id. The
    first user row seen for an id is the one kept; later entries are
    appended to its group. The fold is checked against reference definitions
    that look at the whole pair list at once. */
module Fanout {
  import opened Wrappers
  import opened Errors
  import opened Store
  import opened Entries

  // ---------------------------------------------------------------------------
  // Subscriber lookup

  type SubscriberLookup = int -> Result<seq<User>, Error>

  predicate LookupOk(e: SeriesEntry, subscribersOf: SubscriberLookup) {
    subscribersOf(e.series.details.id).Ok?
  }

  predicate FirstFailedLookup(entries: seq<SeriesEntry>, subscribersOf: SubscriberLookup, k: int) {
    && 0 <= k < |entries|
    && !LookupOk(entries[k], subscribersOf)
    && forall j :: 0 <= j < k ==> LookupOk(entries[j], subscribersOf)
  }

  /** The subscribers of every entry, looked up in order; the first failed
      lookup ends the step with its error. */
  function SubscriberLists(entries: seq<SeriesEntry>, subscribersOf: SubscriberLookup): (r: Result<seq<seq<User>>, Error>)
    ensures r.Ok? <==> forall i :: 0 <= i < |entries| ==> LookupOk(entries[i], subscribersOf)
    ensures r.Ok? ==> |r.value| == |entries|
    ensures r.Ok? ==> forall i :: 0 <= i < |entries| ==> r.value[i] == subscribersOf(entries[i].series.details.id).value
    ensures r.Err? ==> exists k :: FirstFailedLookup(entries, subscribersOf, k)
                                   && r.error == subscribersOf(entries[k].series.details.id).error
  {
    if |entries| == 0 then Ok([])
    else
      match subscribersOf(entries[0].series.details.id)
      case Err(e) => Err(e)
      case Ok(users) =>
        match SubscriberLists(entries[1..], subscribersOf)
        case Err(e) =>
          assert forall j :: 1 <= j <= |entries[1..]| ==> entries[1..][j - 1] == entries[j];
          Err(e)
        case Ok(rest) => Ok([users] + rest)
  }

  // ---------------------------------------------------------------------------
  // (entry, subscriber) pairs

  type Pair = (SeriesEntry, User)

  function PairsOf(e: SeriesEntry, users: seq<User>): (ps: seq<Pair>)
    ensures |ps| == |users| && forall j :: 0 <= j < |users| ==> ps[j] == (e, users[j])
  {
    if |users| == 0 then [] else PairsOf(e, users[..|users| - 1]) + [(e, users[|users| - 1])]
  }

  /** Every entry paired with each of its subscribers, in order. */
  function Pairs(entries: seq<SeriesEntry>, lists: seq<seq<User>>): seq<Pair>
    requires |lists| == |entries|
  {
    if |entries| == 0 then []
    else Pairs(entries[..|entries| - 1], lists[..|lists| - 1]) + PairsOf(entries[|entries| - 1], lists[|lists| - 1])
  }

  // ---------------------------------------------------------------------------
  // Reference definitions over a pair list

  /** The user ids of the pairs in order of first appearance. */
  function SeenIds(pairs: seq<Pair>): (ids: seq<int>)
    ensures forall i, j :: 0 <= i < j < |ids| ==> ids[i] != ids[j]
    ensures forall id :: id in ids <==> exists j :: 0 <= j < |pairs| && pairs[j].1.id == id
  {
    if |pairs| == 0 then []
    else
      var init := pairs[..|pairs| - 1];
      var ids := SeenIds(init);
      var id := pairs[|pairs| - 1].1.id;
      assert forall j :: 0 <= j < |init| ==> init[j] == pairs[j];
      if id in ids then ids else ids + [id]
  }

  /** The entries paired with user id `uid`, in order. */
  function EntriesFor(pairs: seq<Pair>, uid: int): seq<SeriesEntry> {
    if |pairs| == 0 then []
    else
      var last := pairs[|pairs| - 1];
      EntriesFor(pairs[..|pairs| - 1], uid) + (if last.1.id == uid then [last.0] else [])
  }

  /** The first user row with id `uid`. */
  function FirstUser(pairs: seq<Pair>, uid: int): Option<User> {
    if |pairs| == 0 then None
    else
      var last := pairs[|pairs| - 1];
      var first := FirstUser(pairs[..|pairs| - 1], uid);
      if first.Some? then first else if last.1.id == uid then Some(last.1) else None
  }

  lemma {:induction false} UnseenHasNothing(pairs: seq<Pair>, uid: int)
    requires uid !in SeenIds(pairs)
    ensures EntriesFor(pairs, uid) == [] && FirstUser(pairs, uid) == None
  {
    if |pairs| > 0 {
      var init := pairs[..|pairs| - 1];
      assert forall j :: 0 <= j < |init| ==> init[j] == pairs[j];
      UnseenHasNothing(init, uid);
    }
  }

  // ---------------------------------------------------------------------------
  // The fold

  datatype Group = Group(user: User, entries: seq<SeriesEntry>)

  function FindGroup(gs: seq<Group>, uid: int): (r: Option<nat>)
    ensures r.Some? ==> r.value < |gs| && gs[r.value].user.id == uid
    ensures r.None? ==> forall k :: 0 <= k < |gs| ==> gs[k].user.id != uid
  {
    if |gs| == 0 then None
    else if gs[|gs| - 1].user.id == uid then Some(|gs| - 1)
    else FindGroup(gs[..|gs| - 1], uid)
  }

  /** `entry(user.id).and_modify(..).or_insert_with(..)`. */
  function AddPair(gs: seq<Group>, e: SeriesEntry, u: User): seq<Group> {
    match FindGroup(gs, u.id)
    case Some(k) => gs[k := Group(gs[k].user, gs[k].entries + [e])]
    case None => gs + [Group(u, [e])]
  }

  /** `gs` is the grouping of `pairs`: one group per user id in order of first
      appearance, holding the first user row for that id and all entries
      paired with it. */
  predicate GroupsOf(pairs: seq<Pair>, gs: seq<Group>) {
    && |gs| == |SeenIds(pairs)|
    && (forall k :: 0 <= k < |gs| ==> gs[k].user.id == SeenIds(pairs)[k])
    && (forall k :: 0 <= k < |gs| ==> gs[k].entries == EntriesFor(pairs, gs[k].user.id))
    && (forall k :: 0 <= k < |gs| ==> FirstUser(pairs, gs[k].user.id) == Some(gs[k].user))
  }

  /** The grouping loop over all pairs. */
  function GroupPairs(pairs: seq<Pair>): (gs: seq<Group>)
    ensures GroupsOf(pairs, gs)
  {
    if |pairs| == 0 then []
    else
      var init := pairs[..|pairs| - 1];
      var (e, u) := pairs[|pairs| - 1];
      var gs := GroupPairs(init);
      assert init + [(e, u)] == pairs;
      GroupStep(init, gs, e, u);
      AddPair(gs, e, u)
  }

  lemma GroupStep(init: seq<Pair>, gs: seq<Group>, e: SeriesEntry, u: User)
    requires GroupsOf(init, gs)
    ensures GroupsOf(init + [(e, u)], AddPair(gs, e, u))
  {
    var pairs := init + [(e, u)];
    assert pairs[..|pairs| - 1] == init;
    var ids := SeenIds(init);
    match FindGroup(gs, u.id)
    case Some(k) =>
      assert u.id in ids;
      assert SeenIds(pairs) == ids;
    case None =>
      assert u.id !in ids;
      UnseenHasNothing(init, u.id);
      assert SeenIds(pairs) == ids + [u.id];
  }

  // ---------------------------------------------------------------------------
  // From pairs back to entries

  function CountId(users: seq<User>, uid: int): nat {
    if |users| == 0 then 0
    else CountId(users[..|users| - 1], uid) + (if users[|users| - 1].id == uid then 1 else 0)
  }

  function Repeat(e: SeriesEntry, n: nat): (r: seq<SeriesEntry>)
    ensures |r| == n && forall i :: 0 <= i < n ==> r[i] == e
  {
    if n == 0 then [] else Repeat(e, n - 1) + [e]
  }

  /** The entries user id `uid` is subscribed to, in entry order (an entry
      appears once per subscription row of that user). */
  function SubscribedEntries(entries: seq<SeriesEntry>, lists: seq<seq<User>>, uid: int): seq<SeriesEntry>
    requires |lists| == |entries|
  {
    if |entries| == 0 then []
    else SubscribedEntries(entries[..|entries| - 1], lists[..|lists| - 1], uid)
         + Repeat(entries[|entries| - 1], CountId(lists[|lists| - 1], uid))
  }

  lemma {:induction false} EntriesForAppend(p: seq<Pair>, q: seq<Pair>, uid: int)
    ensures EntriesFor(p + q, uid) == EntriesFor(p, uid) + EntriesFor(q, uid)
    decreases |q|
  {
    if |q| == 0 {
      assert p + q == p;
    } else {
      assert (p + q)[..|p + q| - 1] == p + q[..|q| - 1];
      EntriesForAppend(p, q[..|q| - 1], uid);
    }
  }

  lemma {:induction false} EntriesForPairsOf(e: SeriesEntry, users: seq<User>, uid: int)
    ensures EntriesFor(PairsOf(e, users), uid) == Repeat(e, CountId(users, uid))
  {
    if |users| > 0 {
      var ps := PairsOf(e, users);
      assert ps[..|ps| - 1] == PairsOf(e, users[..|users| - 1]);
      EntriesForPairsOf(e, users[..|users| - 1], uid);
    }
  }

  /** The fold's groups hold exactly each user's subscribed entries. */
  lemma {:induction false} EntriesForPairs(entries: seq<SeriesEntry>, lists: seq<seq<User>>, uid: int)
    requires |lists| == |entries|
    ensures EntriesFor(Pairs(entries, lists), uid) == SubscribedEntries(entries, lists, uid)
  {
    if |entries| > 0 {
      var n := |entries|;
      EntriesForPairs(entries[..n - 1], lists[..n - 1], uid);
      EntriesForAppend(Pairs(entries[..n - 1], lists[..n - 1]), PairsOf(entries[n - 1], lists[n - 1]), uid);
      EntriesForPairsOf(entries[n - 1], lists[n - 1], uid);
    }
  }

  lemma {:induction false} SeenIffHasEntries(pairs: seq<Pair>, uid: int)
    ensures uid in SeenIds(pairs) <==> EntriesFor(pairs, uid) != []
  {
    if |pairs| > 0 {
      var init := pairs[..|pairs| - 1];
      SeenIffHasEntries(init, uid);
      assert forall j :: 0 <= j < |init| ==> init[j] == pairs[j];
    }
  }

  lemma {:induction false} SubscribedFromEntries(entries: seq<SeriesEntry>, lists: seq<seq<User>>, uid: int)
    requires |lists| == |entries|
    ensures forall x :: x in SubscribedEntries(entries, lists, uid) ==> x in entries
  {
    if |entries| > 0 {
      var n := |entries|;
      SubscribedFromEntries(entries[..n - 1], lists[..n - 1], uid);
      assert forall x :: x in entries[..n - 1] ==> x in entries;
    }
  }

  /** Every entry in a group is one of the changed entries. */
  lemma GroupEntriesAreEntries(entries: seq<SeriesEntry>, lists: seq<seq<User>>, k: int, i: int)
    requires |lists| == |entries|
    requires 0 <= k < |GroupPairs(Pairs(entries, lists))|
    requires 0 <= i < |GroupPairs(Pairs(entries, lists))[k].entries|
    ensures GroupPairs(Pairs(entries, lists))[k].entries[i] in entries
  {
    var g := GroupPairs(Pairs(entries, lists))[k];
    EntriesForPairs(entries, lists, g.user.id);
    SubscribedFromEntries(entries, lists, g.user.id);
    assert g.entries[i] in g.entries;
  }

  /** The fanout: one group per subscribed user, users distinct, in order of
      first appearance; a group holds exactly that user's subscribed entries,
      which are some of the changed entries; a user has a group exactly when
      subscribed to at least one changed entry. */
  lemma GroupsAreSubscriptions(entries: seq<SeriesEntry>, lists: seq<seq<User>>)
    requires |lists| == |entries|
    ensures var gs := GroupPairs(Pairs(entries, lists));
      && (forall k1, k2 :: 0 <= k1 < k2 < |gs| ==> gs[k1].user.id != gs[k2].user.id)
      && (forall k :: 0 <= k < |gs| ==> gs[k].entries == SubscribedEntries(entries, lists, gs[k].user.id))
      && (forall k :: 0 <= k < |gs| ==> gs[k].entries != [])
      && (forall k, x :: 0 <= k < |gs| && x in gs[k].entries ==> x in entries)
      && (forall uid :: (exists k :: 0 <= k < |gs| && gs[k].user.id == uid) <==> SubscribedEntries(entries, lists, uid) != [])
  {
    var pairs := Pairs(entries, lists);
    var gs := GroupPairs(pairs);
    forall uid ensures EntriesFor(pairs, uid) == SubscribedEntries(entries, lists, uid)
                    && (uid in SeenIds(pairs) <==> EntriesFor(pairs, uid) != [])
                    && (forall x :: x in SubscribedEntries(entries, lists, uid) ==> x in entries)
    {
      EntriesForPairs(entries, lists, uid);
      SeenIffHasEntries(pairs, uid);
      SubscribedFromEntries(entries, lists, uid);
    }
    forall uid ensures (exists k :: 0 <= k < |gs| && gs[k].user.id == uid) <==> uid in SeenIds(pairs) {
      if uid in SeenIds(pairs) {
        var k :| 0 <= k < |SeenIds(pairs)| && SeenIds(pairs)[k] == uid;
        assert gs[k].user.id == uid;
      }
    }
  }

  /** Two subscribers: `a` follows both changed series, `b` only the first.
      Two groups result, `a`'s with both entries and `b`'s with one. */
  lemma TwoSubscribersExample(e1: SeriesEntry, e2: SeriesEntry, a: User, b: User)
    requires a.id != b.id
    ensures GroupPairs(Pairs([e1, e2], [[a, b], [a]])) == [Group(a, [e1, e2]), Group(b, [e1])]
  {
    ExamplePairs(e1, e2, a, b);
    var pairs := [(e1, a), (e1, b), (e2, a)];
    assert pairs[..2] == [(e1, a), (e1, b)];
    ExampleFirstTwo(e1, a, b);
    var gs := [Group(a, [e1]), Group(b, [e1])];
    assert GroupPairs(pairs) == AddPair(gs, e2, a);
    ExampleThird(e1, e2, a, b);
  }

  lemma ExampleThird(e1: SeriesEntry, e2: SeriesEntry, a: User, b: User)
    requires a.id != b.id
    ensures AddPair([Group(a, [e1]), Group(b, [e1])], e2, a) == [Group(a, [e1, e2]), Group(b, [e1])]
  {
    var gs := [Group(a, [e1]), Group(b, [e1])];
    assert FindGroup(gs, a.id) == Some(0) by {
      assert gs[..1] == [Group(a, [e1])];
    }
    assert [e1] + [e2] == [e1, e2];
  }

  lemma ExamplePairs(e1: SeriesEntry, e2: SeriesEntry, a: User, b: User)
    ensures Pairs([e1, e2], [[a, b], [a]]) == [(e1, a), (e1, b), (e2, a)]
  {
    assert [e1][..0] == [] && [[a, b]][..0] == [];
    assert Pairs([], []) == [];
    assert [a, b][..1] == [a] && [a][..0] == [];
    assert PairsOf(e1, [a, b]) == [(e1, a), (e1, b)];
    assert Pairs([e1], [[a, b]]) == [(e1, a), (e1, b)];
    assert PairsOf(e2, [a]) == [(e2, a)];
    assert [e1, e2][..1] == [e1] && [[a, b], [a]][..1] == [[a, b]];
  }

  lemma ExampleFirstTwo(e1: SeriesEntry, a: User, b: User)
    requires a.id != b.id
    ensures GroupPairs([(e1, a), (e1, b)]) == [Group(a, [e1]), Group(b, [e1])]
  {
    assert [(e1, a)][..0] == [];
    assert GroupPairs([(e1, a)]) == [Group(a, [e1])];
    assert [(e1, a), (e1, b)][..1] == [(e1, a)];
    assert FindGroup([Group(a, [e1])], b.id) == None;
  }
}
