/** The template helpers of internal/handler/templates.go: `contains`,
    `join`, `add`, `sub` and `ReactionData.GetUserReaction`. */
module Templates {
  import opened Wrappers
  import opened Strings
  import RT = ReactionTable

  /** `contains`: a linear scan for `e`. */
  method Contains(s: seq<int>, e: int) returns (ok: bool)
    ensures ok <==> e in s
  {
    var i := 0;
    while i < |s|
      invariant 0 <= i <= |s|
      invariant e !in s[..i]
    {
      if s[i] == e {
        return true;
      }
      i := i + 1;
    }
    assert s[..i] == s;
    return false;
  }

  /** The decimal renderings of the items, in order. */
  function Renderings(items: seq<int>): (rs: seq<string>)
    ensures |rs| == |items|
    ensures forall i :: 0 <= i < |items| ==> rs[i] == IntToString(items[i])
  {
    if items == [] then [] else [IntToString(items[0])] + Renderings(items[1..])
  }

  /** `join`: the decimal renderings joined by the one-rune separator. */
  function JoinInts(items: seq<int>, sep: char): (r: string)
    ensures items == [] <==> r == ""
    ensures |items| > 0 ==> |r| == TotalLength(Renderings(items)) + |items| - 1
  {
    var rs := Renderings(items);
    JoinLength(rs, [sep]);
    RenderingsLength(items);
    Join(rs, [sep])
  }

  lemma RenderingsLength(items: seq<int>)
    ensures |items| > 0 ==> TotalLength(Renderings(items)) >= 1
  {
    if |items| > 0 {
      assert |Renderings(items)[0]| >= 1;
    }
  }

  /** Go's `strings.Split` on a one-rune separator: the pieces between
      separators, `[""]` for the empty string. */
  function Split(s: string, sep: char): (parts: seq<string>)
    ensures |parts| >= 1
  {
    if s == [] then [""]
    else if s[0] == sep then [""] + Split(s[1..], sep)
    else
      var rest := Split(s[1..], sep);
      [[s[0]] + rest[0]] + rest[1..]
  }

  /** A string without the separator splits into itself; followed by the
      separator and more, it is the first piece. */
  lemma {:induction false} SplitPrefix(p: string, sep: char, t: string)
    requires sep !in p
    ensures Split(p, sep) == [p]
    ensures Split(p + [sep] + t, sep) == [p] + Split(t, sep)
  {
    if p != [] {
      SplitPrefix(p[1..], sep, t);
      assert (p + [sep] + t)[1..] == p[1..] + [sep] + t;
      assert [p[0]] + p[1..] == p;
    } else {
      assert p + [sep] + t == [sep] + t;
    }
  }

  /** Splitting a join on a separator no piece contains gives the pieces back. */
  lemma {:induction false} SplitJoin(parts: seq<string>, sep: char)
    requires |parts| >= 1
    requires forall i :: 0 <= i < |parts| ==> sep !in parts[i]
    ensures Split(Join(parts, [sep]), sep) == parts
  {
    if |parts| == 1 {
      SplitPrefix(parts[0], sep, "");
    } else {
      SplitJoin(parts[1..], sep);
      SplitPrefix(parts[0], sep, Join(parts[1..], [sep]));
      assert parts[0] + [sep] + Join(parts[1..], [sep]) == Join(parts, [sep]);
      assert [parts[0]] + parts[1..] == parts;
    }
  }

  lemma RenderingAvoids(i: int, sep: char)
    requires !IsDigit(sep) && sep != '-'
    ensures sep !in IntToString(i)
  {
    if i < 0 {
      var digits := NatToString(-i);
      assert IntToString(i) == "-" + digits;
      assert AllDigits(digits);
    }
  }

  /** `join` can be undone: with a separator that is neither a digit nor a
      minus sign, splitting the result and parsing every piece gives the
      numbers back. */
  lemma JoinIntsRoundTrip(items: seq<int>, sep: char)
    requires |items| >= 1 && !IsDigit(sep) && sep != '-'
    requires forall i :: 0 <= i < |items| ==> MinInt64 <= items[i] <= MaxInt64
    ensures var parts := Split(JoinInts(items, sep), sep);
            |parts| == |items| && forall i :: 0 <= i < |items| ==> Atoi(parts[i]) == Some(items[i])
  {
    var rs := Renderings(items);
    forall i | 0 <= i < |rs| ensures sep !in rs[i] {
      RenderingAvoids(items[i], sep);
    }
    SplitJoin(rs, sep);
    forall i | 0 <= i < |items| ensures Atoi(rs[i]) == Some(items[i]) {
      AtoiItoa(items[i]);
    }
  }

  /** `ReactionData.GetUserReaction`: 1 for a like, -1 for a dislike, 0 for none. */
  function GetUserReaction(reaction: Option<bool>): (r: int)
    ensures -1 <= r <= 1
    ensures r == 0 <==> reaction.None?
    ensures r == 1 <==> reaction == Some(true)
    ensures r == -1 <==> reaction == Some(false)
  {
    match reaction
    case Some(isLike) => if isLike then 1 else -1
    case None => 0
  }

  /** Read off the reaction table, the sign says which reactor set the user is in. */
  lemma GetUserReactionReactors(t: RT.Table, user: int, post: int)
    ensures GetUserReaction(RT.Lookup(t, user, post)) == 1 <==> user in RT.Reactors(t, post, true)
    ensures GetUserReaction(RT.Lookup(t, user, post)) == -1 <==> user in RT.Reactors(t, post, false)
    ensures GetUserReaction(RT.Lookup(t, user, post)) == 0 <==> user !in RT.AllReactors(t, post)
  {
    RT.ReactorsMembership(t, post, true, user);
    RT.ReactorsMembership(t, post, false, user);
  }

  /** Go's `int` is 64 bits wide: arithmetic wraps around. */
  function WrapInt64(x: int): (r: int)
    ensures MinInt64 <= r <= MaxInt64
    ensures MinInt64 <= x <= MaxInt64 ==> r == x
    ensures (r - x) % 0x1_0000_0000_0000_0000 == 0
  {
    (x - MinInt64) % 0x1_0000_0000_0000_0000 + MinInt64
  }

  predicate InInt64(x: int) {
    MinInt64 <= x <= MaxInt64
  }

  /** The template function `add`. */
  function Add(a: int, b: int): (r: int)
    ensures InInt64(r)
    ensures InInt64(a + b) ==> r == a + b
  {
    WrapInt64(a + b)
  }

  /** The template function `sub`. */
  function Sub(a: int, b: int): (r: int)
    ensures InInt64(r)
    ensures InInt64(a - b) ==> r == a - b
  {
    WrapInt64(a - b)
  }

  /** Two numbers of the same range that agree modulo 2^64 are equal. */
  lemma SameResidue(x: int, y: int)
    requires InInt64(x) && InInt64(y) && (x - y) % 0x1_0000_0000_0000_0000 == 0
    ensures x == y
  {
  }

  /** `sub` undoes `add`, even when the addition wraps around. */
  lemma SubUndoesAdd(a: int, b: int)
    requires InInt64(a) && InInt64(b)
    ensures Sub(Add(a, b), b) == a
  {
    var s := Add(a, b);
    var d := Sub(s, b);
    var m := 0x1_0000_0000_0000_0000;
    var k1 := (s - (a + b)) / m;
    assert s - (a + b) == k1 * m;
    var k2 := (d - (s - b)) / m;
    assert d - (s - b) == k2 * m;
    assert d - a == (k1 + k2) * m;
    SameResidue(d, a);
  }
}
