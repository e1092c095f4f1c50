/** The reaction tables `post_reactions` and `comment_reactions`: at most one
    row per (user, item) pair, holding `is_like`. Both repositories use the
    same upsert/delete/select statements, so one abstract table serves both. */
module ReactionTable {
  import opened Wrappers

  /** (user id, item id) -> is_like */
  type Table = map<(int, int), bool>

  /** `AddReaction`: INSERT ... ON CONFLICT(user, item) DO UPDATE SET is_like. */
  function Upsert(t: Table, user: int, item: int, isLike: bool): (r: Table)
    ensures (user, item) in r && r[(user, item)] == isLike
    ensures r.Keys == t.Keys + {(user, item)}
    ensures forall k :: k in t && k != (user, item) ==> r[k] == t[k]
  {
    t[(user, item) := isLike]
  }

  /** `RemoveReaction`: DELETE of the (user, item) row, if any. */
  function Remove(t: Table, user: int, item: int): (r: Table)
    ensures (user, item) !in r
    ensures r.Keys == t.Keys - {(user, item)}
    ensures forall k :: k in r ==> r[k] == t[k]
  {
    t - {(user, item)}
  }

  /** The toggle both reaction branches perform: the same reaction again
      removes the row, anything else (no row, or the opposite reaction)
      stores the new one. Every other pair keeps its row. */
  function Toggle(t: Table, user: int, item: int, isLike: bool): (r: Table)
    ensures Lookup(r, user, item) == if Lookup(t, user, item) == Some(isLike) then None else Some(isLike)
    ensures forall k :: k != (user, item) ==> (k in r <==> k in t)
    ensures forall k :: k != (user, item) && k in t ==> r[k] == t[k]
  {
    if Lookup(t, user, item) == Some(isLike) then Remove(t, user, item) else Upsert(t, user, item, isLike)
  }

  /** Toggling the same reaction twice restores the table, unless the user
      held the opposite reaction: then the pair ends with no row at all. */
  lemma ToggleTwice(t: Table, user: int, item: int, isLike: bool)
    ensures Toggle(Toggle(t, user, item, isLike), user, item, isLike) ==
              if Lookup(t, user, item) == Some(!isLike) then Remove(t, user, item) else t
  {
    var r := Toggle(Toggle(t, user, item, isLike), user, item, isLike);
    var e := if Lookup(t, user, item) == Some(!isLike) then Remove(t, user, item) else t;
    assert r.Keys == e.Keys;
  }

  /** `GetUserReaction`: the stored reaction, or nil (with no error) when there is no row. */
  function Lookup(t: Table, user: int, item: int): (r: Option<bool>)
    ensures r.None? <==> (user, item) !in t
    ensures r.Some? ==> r.value == t[(user, item)]
  {
    if (user, item) in t then Some(t[(user, item)]) else None
  }

  /** The users holding a reaction of the given kind on `item`. */
  function Reactors(t: Table, item: int, isLike: bool): set<int> {
    set k | k in t && k.1 == item && t[k] == isLike :: k.0
  }

  /** Every user with any reaction on `item`. */
  function AllReactors(t: Table, item: int): set<int> {
    set k | k in t && k.1 == item :: k.0
  }

  lemma ReactorsMembership(t: Table, item: int, isLike: bool, user: int)
    ensures user in Reactors(t, item, isLike) <==> (user, item) in t && t[(user, item)] == isLike
    ensures user in AllReactors(t, item) <==> (user, item) in t
  {
    if user in Reactors(t, item, isLike) {
      var k :| k in t && k.1 == item && t[k] == isLike && k.0 == user;
      assert k == (user, item);
    }
    if user in AllReactors(t, item) {
      var k :| k in t && k.1 == item && k.0 == user;
      assert k == (user, item);
    }
    if (user, item) in t {
      var k := (user, item);
      assert k.0 == user && k.1 == item;
    }
  }

  /** Nobody holds a reaction of the given kind exactly when the set of such users is empty. */
  lemma ReactorsEmptyIff(t: Table, item: int, isLike: bool)
    ensures Reactors(t, item, isLike) == {} <==> forall u :: (u, item) in t ==> t[(u, item)] != isLike
  {
    var s := Reactors(t, item, isLike);
    if forall u :: (u, item) in t ==> t[(u, item)] != isLike {
      forall x | x in s ensures false {
        ReactorsMembership(t, item, isLike, x);
      }
      assert s == {};
    } else {
      var u :| (u, item) in t && t[(u, item)] == isLike;
      ReactorsMembership(t, item, isLike, u);
      assert u in s;
    }
  }

  /** `GetLikesCount`: COUNT of rows for `item` with is_like = 1 (0 when none). */
  function CountLikes(t: Table, item: int): (n: nat)
    ensures n == 0 <==> forall u :: (u, item) in t ==> !t[(u, item)]
  {
    ReactorsEmptyIff(t, item, true);
    |Reactors(t, item, true)|
  }

  /** `GetDislikesCount`: COUNT of rows for `item` with is_like = 0 (0 when none). */
  function CountDislikes(t: Table, item: int): (n: nat)
    ensures n == 0 <==> forall u :: (u, item) in t ==> t[(u, item)]
  {
    ReactorsEmptyIff(t, item, false);
    |Reactors(t, item, false)|
  }

  /** `GetReactionsCount`: (likes, dislikes) of an item; together they count
      every user who reacted to it. */
  function ReactionCounts(t: Table, item: int): (counts: (nat, nat))
    ensures counts.0 + counts.1 == |AllReactors(t, item)|
    ensures counts.0 == CountLikes(t, item) && counts.1 == CountDislikes(t, item)
  {
    CountsPartition(t, item);
    (CountLikes(t, item), CountDislikes(t, item))
  }

  lemma CountsPartition(t: Table, item: int)
    ensures CountLikes(t, item) + CountDislikes(t, item) == |AllReactors(t, item)|
  {
    var l, d := Reactors(t, item, true), Reactors(t, item, false);
    forall u ensures u in AllReactors(t, item) <==> u in l + d {
      ReactorsMembership(t, item, true, u);
      ReactorsMembership(t, item, false, u);
    }
    forall u | u in l ensures u !in d {
      ReactorsMembership(t, item, true, u);
      ReactorsMembership(t, item, false, u);
    }
    assert AllReactors(t, item) == l + d;
    assert l * d == {};
  }

  /** Upserting the same reaction twice is the same as once. */
  lemma UpsertIdempotent(t: Table, user: int, item: int, isLike: bool)
    ensures Upsert(Upsert(t, user, item, isLike), user, item, isLike) == Upsert(t, user, item, isLike)
  {
  }

  /** After an upsert the lookup returns the new value; every other pair reads as before. */
  lemma UpsertLookup(t: Table, user: int, item: int, isLike: bool, u: int, i: int)
    ensures Lookup(Upsert(t, user, item, isLike), u, i) ==
            if (u, i) == (user, item) then Some(isLike) else Lookup(t, u, i)
  {
  }

  /** After a removal the lookup returns nil; every other pair reads as before;
      removing an absent reaction changes nothing. */
  lemma RemoveLookup(t: Table, user: int, item: int, u: int, i: int)
    ensures Lookup(Remove(t, user, item), u, i) ==
            if (u, i) == (user, item) then None else Lookup(t, u, i)
    ensures (user, item) !in t ==> Remove(t, user, item) == t
  {
  }

  /** On a pair with no prior reaction, adding and then removing restores the
      table, hence both counts and every lookup. */
  lemma AddThenRemoveRestores(t: Table, user: int, item: int, isLike: bool)
    requires (user, item) !in t
    ensures Remove(Upsert(t, user, item, isLike), user, item) == t
    ensures forall i :: CountLikes(Remove(Upsert(t, user, item, isLike), user, item), i) == CountLikes(t, i)
    ensures forall i :: CountDislikes(Remove(Upsert(t, user, item, isLike), user, item), i) == CountDislikes(t, i)
  {
    var r := Remove(Upsert(t, user, item, isLike), user, item);
    assert r.Keys == t.Keys;
  }

  /** A like by a user who had not reacted adds exactly one to the likes. */
  lemma UpsertNewLikeCounts(t: Table, user: int, item: int)
    requires (user, item) !in t
    ensures CountLikes(Upsert(t, user, item, true), item) == CountLikes(t, item) + 1
    ensures CountDislikes(Upsert(t, user, item, true), item) == CountDislikes(t, item)
  {
    var r := Upsert(t, user, item, true);
    forall u ensures u in Reactors(r, item, true) <==> u in Reactors(t, item, true) + {user} {
      ReactorsMembership(r, item, true, u);
      ReactorsMembership(t, item, true, u);
    }
    forall u ensures u in Reactors(r, item, false) <==> u in Reactors(t, item, false) {
      ReactorsMembership(r, item, false, u);
      ReactorsMembership(t, item, false, u);
    }
    ReactorsMembership(t, item, true, user);
    assert Reactors(r, item, true) == Reactors(t, item, true) + {user};
    assert Reactors(r, item, false) == Reactors(t, item, false);
  }
}
