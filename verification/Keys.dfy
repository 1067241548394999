/** Canonical item orderings: sort terms, the comparison they give, and sorted listings of a set of items. */
module Keys {
  import opened Wrappers
  import opened Text
  import opened Identifiers
  import opened Domain

  datatype SortField = PriorityRank | CapturedAt | Requester | Project | Sequence

  datatype Direction = Ascending | Descending

  datatype SortTerm = SortTerm(field: SortField, direction: Direction)

  datatype ItemOrdering = NewestFirst | NextFirst

  const IDENTITY_ORDER :=
    [SortTerm(Requester, Ascending), SortTerm(Project, Ascending), SortTerm(Sequence, Ascending)]

  /** `ItemListOrdering::sort_spec`. */
  function SortSpec(ordering: ItemOrdering): seq<SortTerm> {
    match ordering
    case NewestFirst => [SortTerm(CapturedAt, Descending)] + IDENTITY_ORDER
    case NextFirst => [SortTerm(PriorityRank, Ascending), SortTerm(CapturedAt, Ascending)] + IDENTITY_ORDER
  }

  /** `ItemReadKey`. */
  datatype Key = Key(id: ItemId, capturedAt: string, priority: Option<Priority>)

  function KeyOf(item: Item): Key {
    Key(item.id, item.capturedAt, item.priority)
  }

  /** Queue order with no priority last. */
  function Rank(priority: Option<Priority>): nat {
    match priority
    case Some(P0) => 0
    case Some(P1) => 1
    case Some(P2) => 2
    case Some(P3) => 3
    case Some(P4) => 4
    case None => 5
  }

  datatype Value = Number(n: int) | TextValue(s: string)

  function Coordinate(field: SortField, key: Key): Value {
    match field
    case PriorityRank => Number(Rank(key.priority))
    case CapturedAt => TextValue(key.capturedAt)
    case Requester => TextValue(key.id.requester)
    case Project => TextValue(key.id.project)
    case Sequence => Number(key.id.sequence)
  }

  /** SQLite's order on two values of one column: integers by value, text by bytes. */
  function CompareValue(a: Value, b: Value): Ordering {
    match (a, b)
    case (Number(m), Number(n)) => CompareInt(m, n)
    case (TextValue(s), TextValue(t)) => CompareText(s, t)
    case (Number(_), TextValue(_)) => Less
    case (TextValue(_), Number(_)) => Greater
  }

  function Directed(direction: Direction, ordering: Ordering): Ordering {
    if direction.Ascending? then ordering else ordering.Reverse()
  }

  /** The first term that tells the keys apart decides. */
  function CompareTerms(spec: seq<SortTerm>, left: Key, right: Key): Ordering
    decreases |spec|
  {
    if spec == [] then Equal
    else
      var c := Directed(spec[0].direction,
                        CompareValue(Coordinate(spec[0].field, left), Coordinate(spec[0].field, right)));
      if c != Equal then c else CompareTerms(spec[1..], left, right)
  }

  /** `is_after`: strictly later in the result order. */
  predicate IsAfter(spec: seq<SortTerm>, candidate: Key, boundary: Key) {
    CompareTerms(spec, candidate, boundary) == Greater
  }

  // ---- Order laws ----

  lemma CompareValueLaws(a: Value, b: Value, c: Value)
    ensures CompareValue(a, b) == Equal <==> a == b
    ensures CompareValue(b, a) == CompareValue(a, b).Reverse()
    ensures CompareValue(a, b) == Less && CompareValue(b, c) == Less ==> CompareValue(a, c) == Less
    ensures CompareValue(a, b) == Greater && CompareValue(b, c) == Greater ==> CompareValue(a, c) == Greater
  {
    if a.TextValue? && b.TextValue? {
      CompareTextEqual(a.s, b.s);
      CompareTextReverse(a.s, b.s);
      if c.TextValue? {
        CompareTextReverse(b.s, c.s);
        CompareTextReverse(a.s, c.s);
        if CompareText(a.s, b.s) == Less && CompareText(b.s, c.s) == Less {
          CompareTextTransitive(a.s, b.s, c.s);
        }
        if CompareText(c.s, b.s) == Less && CompareText(b.s, a.s) == Less {
          CompareTextTransitive(c.s, b.s, a.s);
        }
      }
    }
  }

  lemma {:induction false} CompareReverse(spec: seq<SortTerm>, a: Key, b: Key)
    ensures CompareTerms(spec, b, a) == CompareTerms(spec, a, b).Reverse()
    decreases |spec|
  {
    if spec != [] {
      CompareValueLaws(Coordinate(spec[0].field, a), Coordinate(spec[0].field, b), Number(0));
      CompareReverse(spec[1..], a, b);
    }
  }

  lemma {:induction false} CompareEqual(spec: seq<SortTerm>, a: Key, b: Key)
    ensures CompareTerms(spec, a, b) == Equal <==>
            forall i :: 0 <= i < |spec| ==> Coordinate(spec[i].field, a) == Coordinate(spec[i].field, b)
    decreases |spec|
  {
    if spec != [] {
      CompareValueLaws(Coordinate(spec[0].field, a), Coordinate(spec[0].field, b), Number(0));
      CompareEqual(spec[1..], a, b);
      assert forall i :: 1 <= i < |spec| ==> spec[i] == spec[1..][i - 1];
    }
  }

  /** The comparison is transitive through equal keys as well, so it is a total preorder. */
  lemma {:induction false} CompareTransitive(spec: seq<SortTerm>, a: Key, b: Key, c: Key)
    requires CompareTerms(spec, a, b) != Greater && CompareTerms(spec, b, c) != Greater
    ensures CompareTerms(spec, a, c) != Greater
    ensures CompareTerms(spec, a, b) == Less || CompareTerms(spec, b, c) == Less ==> CompareTerms(spec, a, c) == Less
    decreases |spec|
  {
    if spec != [] {
      var f := spec[0].field;
      var x, y, z := Coordinate(f, a), Coordinate(f, b), Coordinate(f, c);
      CompareValueLaws(x, y, z);
      CompareValueLaws(y, z, x);
      if x == y && y == z {
        CompareTransitive(spec[1..], a, b, c);
      }
    }
  }

  /** Both orderings end in the identity: equal position means the same item. */
  lemma OrderingSeparates(ordering: ItemOrdering, a: Key, b: Key)
    requires CompareTerms(SortSpec(ordering), a, b) == Equal
    ensures a.id == b.id && a.capturedAt == b.capturedAt
  {
    var spec := SortSpec(ordering);
    CompareEqual(spec, a, b);
    var n := |spec|;
    assert spec[n - 1].field == Sequence && spec[n - 2].field == Project && spec[n - 3].field == Requester;
    assert spec[n - 4].field == CapturedAt;
  }

  // ---- Sorted listings ----

  /** Strictly increasing in the result order. */
  ghost predicate Increasing(spec: seq<SortTerm>, s: seq<Item>) {
    forall i, j :: 0 <= i < j < |s| ==> CompareTerms(spec, KeyOf(s[i]), KeyOf(s[j])) == Less
  }

  /** No two items of the set share a position. */
  ghost predicate Separated(spec: seq<SortTerm>, items: set<Item>) {
    forall x, y :: x in items && y in items && x != y ==> CompareTerms(spec, KeyOf(x), KeyOf(y)) != Equal
  }

  function Insert(spec: seq<SortTerm>, item: Item, s: seq<Item>): seq<Item>
    decreases |s|
  {
    if s == [] || CompareTerms(spec, KeyOf(item), KeyOf(s[0])) == Less then [item] + s
    else [s[0]] + Insert(spec, item, s[1..])
  }

  /** ORDER BY: the items of a set in result order. */
  ghost function Sorted(spec: seq<SortTerm>, items: set<Item>): seq<Item>
    decreases |items|
  {
    if items == {} then []
    else
      var item: Item :| item in items;
      Insert(spec, item, Sorted(spec, items - {item}))
  }

  lemma {:induction false} InsertMembers(spec: seq<SortTerm>, item: Item, s: seq<Item>)
    ensures forall x :: x in Insert(spec, item, s) <==> x == item || x in s
    ensures |Insert(spec, item, s)| == |s| + 1
    decreases |s|
  {
    if s != [] && CompareTerms(spec, KeyOf(item), KeyOf(s[0])) != Less {
      InsertMembers(spec, item, s[1..]);
      assert s == [s[0]] + s[1..];
    }
  }

  lemma IncreasingCons(spec: seq<SortTerm>, x: Item, s: seq<Item>)
    requires Increasing(spec, s)
    requires s != [] ==> CompareTerms(spec, KeyOf(x), KeyOf(s[0])) == Less
    ensures Increasing(spec, [x] + s)
  {
    var t := [x] + s;
    forall i, j | 0 <= i < j < |t| ensures CompareTerms(spec, KeyOf(t[i]), KeyOf(t[j])) == Less {
      if i == 0 && j > 1 {
        CompareTransitive(spec, KeyOf(x), KeyOf(s[0]), KeyOf(s[j - 1]));
      }
    }
  }

  lemma {:induction false} InsertIncreasing(spec: seq<SortTerm>, item: Item, s: seq<Item>)
    requires Increasing(spec, s)
    requires forall x :: x in s ==> CompareTerms(spec, KeyOf(item), KeyOf(x)) != Equal
    ensures Increasing(spec, Insert(spec, item, s))
    decreases |s|
  {
    if s == [] || CompareTerms(spec, KeyOf(item), KeyOf(s[0])) == Less {
      IncreasingCons(spec, item, s);
    } else {
      assert s[0] in s;
      CompareReverse(spec, KeyOf(item), KeyOf(s[0]));
      InsertIncreasing(spec, item, s[1..]);
      IncreasingCons(spec, s[0], Insert(spec, item, s[1..]));
    }
  }

  /** A sorted listing holds exactly the set, once each, in order. */
  lemma {:induction false} SortedExact(spec: seq<SortTerm>, items: set<Item>)
    requires Separated(spec, items)
    ensures Increasing(spec, Sorted(spec, items))
    ensures forall x :: x in Sorted(spec, items) <==> x in items
    ensures |Sorted(spec, items)| == |items|
    decreases |items|
  {
    if items != {} {
      var item: Item :| item in items && Sorted(spec, items) == Insert(spec, item, Sorted(spec, items - {item}));
      var rest := Sorted(spec, items - {item});
      SortedExact(spec, items - {item});
      InsertMembers(spec, item, rest);
      InsertIncreasing(spec, item, rest);
    }
  }

  /** The order leaves no freedom: any strictly increasing listing of the same items is the same sequence. */
  lemma {:induction false} IncreasingUnique(spec: seq<SortTerm>, s: seq<Item>, t: seq<Item>)
    requires Increasing(spec, s) && Increasing(spec, t) && forall x :: x in s <==> x in t
    ensures s == t
    decreases |s|
  {
    assert s != [] ==> s[0] in s;
    assert t != [] ==> t[0] in t;
    if s != [] && t != [] {
      SameHead(spec, s, t);
      forall x ensures x in s[1..] <==> x in t[1..] {
        TailMembers(spec, s, x);
        TailMembers(spec, t, x);
      }
      IncreasingUnique(spec, s[1..], t[1..]);
      assert s == [s[0]] + s[1..] && t == [t[0]] + t[1..];
    }
  }

  lemma SameHead(spec: seq<SortTerm>, s: seq<Item>, t: seq<Item>)
    requires Increasing(spec, s) && Increasing(spec, t) && s != [] && t != []
    requires forall x :: x in s <==> x in t
    ensures s[0] == t[0]
  {
    assert s[0] in s && t[0] in t;
    var i :| 0 <= i < |t| && t[i] == s[0];
    var j :| 0 <= j < |s| && s[j] == t[0];
    CompareReverse(spec, KeyOf(s[0]), KeyOf(t[0]));
  }

  lemma TailMembers(spec: seq<SortTerm>, s: seq<Item>, x: Item)
    requires Increasing(spec, s) && s != []
    ensures x in s[1..] <==> x in s && x != s[0]
  {
    assert s == [s[0]] + s[1..];
    if x in s[1..] {
      var k :| 0 <= k < |s[1..]| && s[1..][k] == x;
      assert s[k + 1] == x;
      CompareEqual(spec, KeyOf(x), KeyOf(x));
    }
  }

  /**
   Keyset pagination: the items after the boundary are a suffix of the listing, found where the boundary would stand.
   */
  lemma SuffixAfter(spec: seq<SortTerm>, s: seq<Item>, k: nat, boundary: Key)
    requires Increasing(spec, s) && 0 < k <= |s| && boundary == KeyOf(s[k - 1])
    ensures forall i :: 0 <= i < |s| ==> (IsAfter(spec, KeyOf(s[i]), boundary) <==> i >= k)
  {
    forall i | 0 <= i < |s| ensures IsAfter(spec, KeyOf(s[i]), boundary) <==> i >= k {
      CompareReverse(spec, KeyOf(s[i]), boundary);
      CompareEqual(spec, boundary, boundary);
    }
  }

  // ---- The order spelled out ----

  /** P0 before P1 before P2 before P3 before P4 before no priority. */
  predicate Higher(a: Option<Priority>, b: Option<Priority>) {
    match a
    case Some(P0) => b != Some(P0)
    case Some(P1) => b != Some(P0) && b != Some(P1)
    case Some(P2) => b == Some(P3) || b == Some(P4) || b == None
    case Some(P3) => b == Some(P4) || b == None
    case Some(P4) => b == None
    case None => false
  }

  /** Requester, then project, then the number. */
  predicate IdBefore(a: ItemId, b: ItemId) {
    || TextBefore(a.requester, b.requester)
    || (a.requester == b.requester && TextBefore(a.project, b.project))
    || (a.requester == b.requester && a.project == b.project && a.sequence < b.sequence)
  }

  /** Which of two keys a list shows first: the newest capture, or the next to work on. */
  predicate KeyBefore(ordering: ItemOrdering, a: Key, b: Key) {
    match ordering
    case NewestFirst =>
      TextBefore(b.capturedAt, a.capturedAt) || (a.capturedAt == b.capturedAt && IdBefore(a.id, b.id))
    case NextFirst =>
      || Higher(a.priority, b.priority)
      || (a.priority == b.priority && TextBefore(a.capturedAt, b.capturedAt))
      || (a.priority == b.priority && a.capturedAt == b.capturedAt && IdBefore(a.id, b.id))
  }

  predicate Before(ordering: ItemOrdering, x: Item, y: Item) {
    KeyBefore(ordering, Key(x.id, x.capturedAt, x.priority), Key(y.id, y.capturedAt, y.priority))
  }

  lemma RankIsHigher(a: Option<Priority>, b: Option<Priority>)
    ensures Rank(a) < Rank(b) <==> Higher(a, b)
    ensures Rank(a) == Rank(b) <==> a == b
  {
  }

  lemma IdentityExact(spec: seq<SortTerm>, a: Key, b: Key)
    requires spec == IDENTITY_ORDER
    ensures CompareTerms(spec, a, b) == Less <==> IdBefore(a.id, b.id)
  {
    hide CompareText, TextBefore;
    CompareTextExact(a.id.requester, b.id.requester);
    CompareTextExact(a.id.project, b.id.project);
    CompareTextEqual(a.id.requester, b.id.requester);
    CompareTextEqual(a.id.project, b.id.project);
    assert spec[1..] == [SortTerm(Project, Ascending), SortTerm(Sequence, Ascending)];
    assert spec[1..][1..] == [SortTerm(Sequence, Ascending)];
    assert spec[1..][1..][1..] == [];
  }

  /** The sort terms of both orderings mean exactly the order spelled out. */
  lemma OrderExact(ordering: ItemOrdering, a: Key, b: Key)
    ensures CompareTerms(SortSpec(ordering), a, b) == Less <==> KeyBefore(ordering, a, b)
    ensures IsAfter(SortSpec(ordering), b, a) <==> KeyBefore(ordering, a, b)
  {
    hide CompareText, TextBefore, IdBefore, Higher, Rank;
    var spec := SortSpec(ordering);
    CompareReverse(spec, a, b);
    CompareTextExact(a.capturedAt, b.capturedAt);
    CompareTextExact(b.capturedAt, a.capturedAt);
    CompareTextEqual(a.capturedAt, b.capturedAt);
    CompareTextReverse(a.capturedAt, b.capturedAt);
    if ordering.NewestFirst? {
      assert spec[1..] == IDENTITY_ORDER;
      IdentityExact(spec[1..], a, b);
    } else {
      RankIsHigher(a.priority, b.priority);
      assert spec[1..][1..] == IDENTITY_ORDER;
      IdentityExact(spec[1..][1..], a, b);
    }
  }

  /** Every item stands before all later ones. */
  predicate InOrder(ordering: ItemOrdering, s: seq<Item>) {
    forall i, j :: 0 <= i < j < |s| ==> Before(ordering, s[i], s[j])
  }

  lemma {:induction false} IncreasingIsInOrder(ordering: ItemOrdering, s: seq<Item>)
    ensures Increasing(SortSpec(ordering), s) <==> InOrder(ordering, s)
  {
    hide CompareTerms, SortSpec, KeyBefore;
    forall i, j | 0 <= i < j < |s|
      ensures CompareTerms(SortSpec(ordering), KeyOf(s[i]), KeyOf(s[j])) == Less <==> Before(ordering, s[i], s[j])
    {
      OrderExact(ordering, KeyOf(s[i]), KeyOf(s[j]));
    }
  }
}
