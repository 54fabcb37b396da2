/**
 * The room search of the booking assistant
 * (src/lib/chat-tools/findRoomsByCarac.ts): the candidates returned by the
 * characteristics search are asked one by one whether they are free, each
 * free room is scored against the criteria, the free rooms are sorted by
 * descending score, and the answer is rendered as a chat message.
 *
 * The characteristics search and the availability check are services whose
 * code is not part of this model: they enter as a parameter (the candidates
 * the search returned, or its failure) and as an oracle function from a room
 * id to its answer (or a failure).
 */
module Ranking {
  import opened Strings

  datatype Room = Room(id: string, name: string, capacity: int, location: string, equipment: Option<seq<string>>)

  /** The optional criteria of the request. */
  datatype Criteria = Criteria(
    capacity: Option<int>,
    equipment: Option<seq<string>>,
    location: Option<string>,
    name: Option<string>)

  /** What an awaited service call gives: a value, or an exception. */
  datatype Call<T> = Threw | Returned(value: T)

  datatype ScoredRoom = ScoredRoom(room: Room, score: real)

  // ---------------------------------------------------------------- score

  /** `equipment.filter(e => room.equipment.includes(e)).length`: the requested
      items, counted with repetition, that the room lists. */
  function MatchCount(requested: seq<string>, owned: seq<string>): (n: nat)
    ensures n <= |requested|
  {
    if requested == [] then 0
    else (if requested[0] in owned then 1 else 0) + MatchCount(requested[1..], owned)
  }

  /** Every requested item counts exactly when the room has all of them. */
  lemma {:induction false} MatchCountAll(requested: seq<string>, owned: seq<string>)
    ensures MatchCount(requested, owned) == |requested| <==> forall e :: e in requested ==> e in owned
  {
    if requested != [] {
      MatchCountAll(requested[1..], owned);
      assert forall e :: e in requested <==> e == requested[0] || e in requested[1..];
    }
  }

  /** No requested item counts exactly when the room has none of them. */
  lemma {:induction false} MatchCountNone(requested: seq<string>, owned: seq<string>)
    ensures MatchCount(requested, owned) == 0 <==> forall e :: e in requested ==> e !in owned
  {
    if requested != [] {
      MatchCountNone(requested[1..], owned);
      assert forall e :: e in requested <==> e == requested[0] || e in requested[1..];
    }
  }

  /** Ten points per requested item the room lists. */
  function EquipmentTerm(c: Criteria, room: Room): real {
    if c.equipment.Some? && room.equipment.Some? then
      (10 * MatchCount(c.equipment.value, room.equipment.value)) as real
    else 0.0
  }

  function Min(x: real, y: real): real {
    if x <= y then x else y
  }

  /** `5 - Math.min(capacityDiff / 2, 4)` for a room at least as large as requested. */
  function CapacityFit(requested: int, capacity: int): real {
    if requested != 0 && capacity != 0 && capacity - requested >= 0 then
      5.0 - Min((capacity - requested) as real / 2.0, 4.0)
    else 0.0
  }

  function CapacityTerm(c: Criteria, room: Room): real {
    if c.capacity.Some? then CapacityFit(c.capacity.value, room.capacity) else 0.0
  }

  /** The capacity fit is zero for an undersized room or a zero capacity on
      either side, and otherwise lies between 1 and 5. */
  lemma CapacityFitRange(requested: int, capacity: int)
    ensures requested == 0 || capacity == 0 || capacity < requested ==> CapacityFit(requested, capacity) == 0.0
    ensures requested != 0 && capacity != 0 && capacity >= requested ==>
      1.0 <= CapacityFit(requested, capacity) <= 5.0
  {
  }

  /** The capacity term is zero exactly when no capacity is requested, either
      capacity is zero or the room is undersized; it never exceeds 5. */
  lemma CapacityTermRange(c: Criteria, room: Room)
    ensures CapacityTerm(c, room) == 0.0 <==>
      c.capacity.None? || c.capacity.value == 0 || room.capacity == 0 || room.capacity < c.capacity.value
    ensures 0.0 <= CapacityTerm(c, room) <= 5.0
  {
    if c.capacity.Some? {
      CapacityFitRange(c.capacity.value, room.capacity);
    }
  }

  /** The full 5 points go to an exact fit, and only to it. */
  lemma CapacityFitExact(requested: int, capacity: int)
    requires requested != 0 && capacity != 0
    ensures CapacityFit(requested, capacity) == 5.0 <==> capacity == requested
  {
  }

  /** A larger surplus never earns more. */
  lemma CapacityFitMonotone(requested: int, smaller: int, larger: int)
    requires requested != 0 && smaller != 0 && requested <= smaller <= larger
    ensures CapacityFit(requested, larger) <= CapacityFit(requested, smaller)
  {
  }

  /** Lower-cased substring test of a non-empty criterion. */
  predicate Mentions(field: string, criterion: Option<string>) {
    criterion.Some? && criterion.value != [] && Contains(Lower(field), Lower(criterion.value))
  }

  function NameBonus(c: Criteria, room: Room): real {
    if Mentions(room.name, c.name) then 3.0 else 0.0
  }

  function LocationBonus(c: Criteria, room: Room): real {
    if Mentions(room.location, c.location) then 2.0 else 0.0
  }

  /** The score of a free room: the sum of the four terms. */
  function Score(c: Criteria, room: Room): real {
    EquipmentTerm(c, room) + CapacityTerm(c, room) + NameBonus(c, room) + LocationBonus(c, room)
  }

  /** Every score is at least 0 and at most 10 per requested item plus 10. */
  lemma ScoreBounds(c: Criteria, room: Room)
    ensures 0.0 <= Score(c, room)
    ensures c.equipment.Some? ==> Score(c, room) <= (10 * |c.equipment.value| + 10) as real
    ensures c.equipment.None? ==> Score(c, room) <= 10.0
  {
    if c.capacity.Some? {
      CapacityFitRange(c.capacity.value, room.capacity);
    }
  }

  /** The name and location bonuses do not depend on letter case. */
  lemma MentionsIgnoresCase(field: string, criterion: string)
    ensures Mentions(Lower(field), Some(Lower(criterion))) == Mentions(field, Some(criterion))
  {
    LowerIdempotent(field);
    LowerIdempotent(criterion);
  }

  /** The score is built up term by term, as the search does. */
  method ComputeScore(c: Criteria, room: Room) returns (score: real)
    ensures score == Score(c, room)
  {
    score := 0.0;
    if c.equipment.Some? && room.equipment.Some? {
      score := score + (MatchCount(c.equipment.value, room.equipment.value) * 10) as real;
    }
    if c.capacity.Some? && c.capacity.value != 0 && room.capacity != 0 {
      var capacityDiff := room.capacity - c.capacity.value;
      if capacityDiff >= 0 {
        score := score + 5.0 - Min(capacityDiff as real / 2.0, 4.0);
      }
    }
    if c.name.Some? && c.name.value != [] && Contains(Lower(room.name), Lower(c.name.value)) {
      score := score + 3.0;
    }
    if c.location.Some? && c.location.value != [] && Contains(Lower(room.location), Lower(c.location.value)) {
      score := score + 2.0;
    }
  }

  // ---------------------------------------------------------------- free rooms

  predicate IsFree(available: string -> Call<bool>, room: Room) {
    available(room.id) == Returned(true)
  }

  /** The free candidates with their scores, in candidate order. */
  function Kept(c: Criteria, rooms: seq<Room>, available: string -> Call<bool>): (r: seq<ScoredRoom>)
    ensures |r| <= |rooms|
  {
    if rooms == [] then []
    else
      var last := rooms[|rooms| - 1];
      Kept(c, rooms[..|rooms| - 1], available)
        + (if IsFree(available, last) then [ScoredRoom(last, Score(c, last))] else [])
  }

  /** A room is kept, with its score, exactly when it is a candidate and free. */
  lemma {:induction false} KeptMembership(c: Criteria, rooms: seq<Room>, available: string -> Call<bool>, x: ScoredRoom)
    ensures x in Kept(c, rooms, available) <==>
      exists k :: 0 <= k < |rooms| && IsFree(available, rooms[k]) && x == ScoredRoom(rooms[k], Score(c, rooms[k]))
    decreases |rooms|
  {
    if rooms != [] {
      var init := rooms[..|rooms| - 1];
      KeptMembership(c, init, available, x);
      if exists k :: 0 <= k < |rooms| && IsFree(available, rooms[k]) && x == ScoredRoom(rooms[k], Score(c, rooms[k])) {
        var k :| 0 <= k < |rooms| && IsFree(available, rooms[k]) && x == ScoredRoom(rooms[k], Score(c, rooms[k]));
        if k < |rooms| - 1 {
          assert init[k] == rooms[k];
        }
      }
      if exists k :: 0 <= k < |init| && IsFree(available, init[k]) && x == ScoredRoom(init[k], Score(c, init[k])) {
        var k :| 0 <= k < |init| && IsFree(available, init[k]) && x == ScoredRoom(init[k], Score(c, init[k]));
        assert rooms[k] == init[k];
      }
    }
  }

  // ---------------------------------------------------------------- stable descending order

  predicate NonIncreasing(r: seq<ScoredRoom>) {
    forall p, q :: 0 <= p < q < |r| ==> r[p].score >= r[q].score
  }

  /** The entries of `s` whose score is `v`, in their order in `s`. */
  function WithScore(s: seq<ScoredRoom>, v: real): seq<ScoredRoom> {
    if s == [] then []
    else (if s[0].score == v then [s[0]] else []) + WithScore(s[1..], v)
  }

  /** `r` is `rooms` sorted by descending score by a stable sort: it is in
      non-increasing order, and entries of equal score keep their order. */
  ghost predicate StableRanking(rooms: seq<ScoredRoom>, r: seq<ScoredRoom>) {
    |r| == |rooms| && NonIncreasing(r) && forall v :: WithScore(r, v) == WithScore(rooms, v)
  }

  lemma {:induction false} WithScoreConcat(s: seq<ScoredRoom>, t: seq<ScoredRoom>, v: real)
    ensures WithScore(s + t, v) == WithScore(s, v) + WithScore(t, v)
    decreases |s|
  {
    if s == [] {
      assert s + t == t;
    } else {
      var head := if s[0].score == v then [s[0]] else [];
      assert (s + t)[0] == s[0];
      assert (s + t)[1..] == s[1..] + t;
      assert WithScore(s + t, v) == head + WithScore(s[1..] + t, v);
      WithScoreConcat(s[1..], t, v);
      assert WithScore(s, v) == head + WithScore(s[1..], v);
    }
  }

  /** Swapping two neighbours of different scores changes no score class. */
  lemma SwapKeepsClasses(s: seq<ScoredRoom>, j: int)
    requires 0 < j < |s| && s[j - 1].score != s[j].score
    ensures forall v :: WithScore(s[j - 1 := s[j]][j := s[j - 1]], v) == WithScore(s, v)
  {
    var pre, post := s[..j - 1], s[j + 1..];
    var t := s[j - 1 := s[j]][j := s[j - 1]];
    assert s == pre + [s[j - 1], s[j]] + post;
    assert t == pre + [s[j], s[j - 1]] + post;
    forall v ensures WithScore(t, v) == WithScore(s, v) {
      SwapPairKeepsClass(s[j - 1], s[j], v);
      SplitAroundPair(pre, s[j - 1], s[j], post, v);
      SplitAroundPair(pre, s[j], s[j - 1], post, v);
    }
  }

  lemma SwapPairKeepsClass(x: ScoredRoom, y: ScoredRoom, v: real)
    requires x.score != y.score
    ensures WithScore([x, y], v) == WithScore([y, x], v)
  {
    assert [x, y][1..] == [y] && [y, x][1..] == [x];
  }

  lemma SplitAroundPair(pre: seq<ScoredRoom>, x: ScoredRoom, y: ScoredRoom, post: seq<ScoredRoom>, v: real)
    ensures WithScore(pre + [x, y] + post, v) == WithScore(pre, v) + WithScore([x, y], v) + WithScore(post, v)
  {
    WithScoreConcat(pre + [x, y], post, v);
    WithScoreConcat(pre, [x, y], v);
  }

  /** `x` occurs in `s` as often as in its own score class. */
  lemma {:induction false} CountInClass(s: seq<ScoredRoom>, x: ScoredRoom)
    ensures multiset(s)[x] == multiset(WithScore(s, x.score))[x]
    decreases |s|
  {
    if s != [] {
      CountInClass(s[1..], x);
      assert s == [s[0]] + s[1..];
    }
  }

  /** A stable ranking is a permutation of what it ranks. */
  lemma StableRankingIsPermutation(rooms: seq<ScoredRoom>, r: seq<ScoredRoom>)
    requires StableRanking(rooms, r)
    ensures multiset(r) == multiset(rooms)
  {
    forall x ensures multiset(r)[x] == multiset(rooms)[x] {
      CountInClass(r, x);
      CountInClass(rooms, x);
    }
  }

  /** `availableRooms.sort((a, b) => b.score - a.score)`: a stable sort by
      descending score, done in place by insertion. */
  method SortByScore(a: array<ScoredRoom>)
    modifies a
    ensures NonIncreasing(a[..])
    ensures forall v :: WithScore(a[..], v) == WithScore(old(a[..]), v)
  {
    var i := 0;
    while i < a.Length
      invariant 0 <= i <= a.Length
      invariant NonIncreasing(a[..i])
      invariant forall v :: WithScore(a[..], v) == WithScore(old(a[..]), v)
    {
      var j := i;
      assert OrderedBut(a[..], i, j) by {
        assert forall p :: 0 <= p < i ==> a[..i][p] == a[p];
      }
      while j > 0 && a[j - 1].score < a[j].score
        invariant 0 <= j <= i < a.Length
        invariant OrderedBut(a[..], i, j) && TopOf(a[..], i, j)
        invariant forall v :: WithScore(a[..], v) == WithScore(old(a[..]), v)
      {
        SwapKeepsClasses(a[..], j);
        SwapStep(a[..], i, j);
        a[j - 1], a[j] := a[j], a[j - 1];
        j := j - 1;
      }
      InsertDone(a[..], i, j);
      i := i + 1;
    }
    assert a[..] == a[..a.Length];
  }

  /** Positions up to `i`, leaving out `j`, are in non-increasing order. */
  predicate OrderedBut(s: seq<ScoredRoom>, i: int, j: int)
    requires 0 <= j <= i < |s|
  {
    forall p, q :: 0 <= p < q <= i && p != j && q != j ==> s[p].score >= s[q].score
  }

  /** The entry at `j` scores at least as high as every entry after it up to `i`. */
  predicate TopOf(s: seq<ScoredRoom>, i: int, j: int)
    requires 0 <= j <= i < |s|
  {
    forall q :: j < q <= i ==> s[j].score >= s[q].score
  }

  /** Swapping the entry being inserted with a lower-scored left neighbour. */
  lemma SwapStep(s: seq<ScoredRoom>, i: int, j: int)
    requires 0 < j <= i < |s|
    requires OrderedBut(s, i, j) && TopOf(s, i, j) && s[j - 1].score < s[j].score
    ensures OrderedBut(s[j - 1 := s[j]][j := s[j - 1]], i, j - 1)
    ensures TopOf(s[j - 1 := s[j]][j := s[j - 1]], i, j - 1)
  {
  }

  /** Once the inserted entry meets a neighbour scoring at least as high, the
      prefix up to `i` is in order. */
  lemma InsertDone(s: seq<ScoredRoom>, i: int, j: int)
    requires 0 <= j <= i < |s|
    requires OrderedBut(s, i, j) && TopOf(s, i, j)
    requires j == 0 || s[j - 1].score >= s[j].score
    ensures NonIncreasing(s[..i + 1])
  {
  }

  // ---------------------------------------------------------------- the search

  /** The four ways the search ends. */
  datatype Outcome = NoMatchOnCriteria | NoneAvailable | SearchFailed | Found(ranked: seq<ScoredRoom>)

  /** `findRoomsByCarac`, up to the rendering of the answer. */
  method FindRoomsByCarac(c: Criteria, search: Call<Option<seq<Room>>>, available: string -> Call<bool>)
    returns (outcome: Outcome)
    ensures search.Threw? ==> outcome == SearchFailed
    ensures search.Returned? && (search.value.None? || search.value.value == []) ==> outcome == NoMatchOnCriteria
    ensures search.Returned? && search.value.Some? && search.value.value != [] ==>
      var rooms := search.value.value;
      if exists k :: 0 <= k < |rooms| && available(rooms[k].id).Threw? then outcome == SearchFailed
      else if Kept(c, rooms, available) == [] then outcome == NoneAvailable
      else outcome.Found? && StableRanking(Kept(c, rooms, available), outcome.ranked)
  {
    if search.Threw? {
      return SearchFailed;
    }
    var potentialRooms := search.value;
    if potentialRooms.None? || |potentialRooms.value| == 0 {
      return NoMatchOnCriteria;
    }
    var rooms := potentialRooms.value;
    var availableRooms: seq<ScoredRoom> := [];
    for i := 0 to |rooms|
      invariant availableRooms == Kept(c, rooms[..i], available)
      invariant forall k :: 0 <= k < i ==> available(rooms[k].id).Returned?
    {
      var answer := available(rooms[i].id);
      if answer.Threw? {
        return SearchFailed;
      }
      assert rooms[..i + 1][..i] == rooms[..i];
      if answer.value {
        var score := ComputeScore(c, rooms[i]);
        availableRooms := availableRooms + [ScoredRoom(rooms[i], score)];
      }
    }
    assert rooms[..|rooms|] == rooms;
    if |availableRooms| == 0 {
      return NoneAvailable;
    }
    var a := new ScoredRoom[|availableRooms|](k requires 0 <= k < |availableRooms| => availableRooms[k]);
    assert a[..] == availableRooms;
    SortByScore(a);
    return Found(a[..]);
  }

  /** A room is in the ranking, with its score, exactly when the search
      returned it and it is free. */
  lemma RankedMembership(c: Criteria, rooms: seq<Room>, available: string -> Call<bool>, r: seq<ScoredRoom>, x: ScoredRoom)
    requires StableRanking(Kept(c, rooms, available), r)
    ensures x in r <==>
      exists k :: 0 <= k < |rooms| && IsFree(available, rooms[k]) && x == ScoredRoom(rooms[k], Score(c, rooms[k]))
  {
    StableRankingIsPermutation(Kept(c, rooms, available), r);
    assert x in r <==> x in multiset(r);
    KeptMembership(c, rooms, available, x);
  }

  // ---------------------------------------------------------------- the answer

  /** The meeting slot as the date library formats it: a day and two times. */
  datatype Slot = Slot(date: string, start: string, end: string)

  const NoMatchMessage: string := "❌ Aucune salle ne " + "correspond à vos " + "critères de base."
  const NoneFreeMessage: string := "❌ Aucune salle " + "disponible à cet " + "horaire."
  const FailureMessage: string := "❌ Une erreur est " + "survenue lors de la " + "recherche de salles."

  function HeaderLine(count: nat, slot: Slot): string {
    "✅ " + NatToString(count) + SlotText(slot)
  }

  /** The header after the count: the day and the two times of the slot. */
  function SlotText(slot: Slot): string {
    " salle(s) disponible(s) le " + slot.date + " de " + slot.start + " à " + slot.end + ":"
  }

  /** The list line of one room. */
  function BulletLine(room: Room): string {
    "• **" + room.name + "** • " + IntToString(room.capacity) + " pers • " + room.location
  }

  function BulletLines(r: seq<ScoredRoom>): (lines: seq<string>)
    ensures |lines| == |r|
  {
    seq(|r|, k requires 0 <= k < |r| => BulletLine(r[k].room))
  }

  /** The chat message the search answers with. */
  function Response(outcome: Outcome, slot: Slot): (r: string)
    ensures r != [] && (r[0] == '✅' <==> outcome.Found?)
  {
    match outcome
    case NoMatchOnCriteria => NoMatchMessage
    case NoneAvailable => NoneFreeMessage
    case SearchFailed => FailureMessage
    case Found(ranked) => HeaderLine(|ranked|, slot) + "\n\n" + Join(BulletLines(ranked), "\n")
  }

  /** "No room matches the criteria", "no room is free" and "the search
      failed" are three different messages. */
  lemma FailureMessagesDiffer(slot: Slot)
    ensures Response(NoMatchOnCriteria, slot) != Response(NoneAvailable, slot)
    ensures Response(NoMatchOnCriteria, slot) != Response(SearchFailed, slot)
    ensures Response(NoneAvailable, slot) != Response(SearchFailed, slot)
  {
    assert NoMatchMessage[2] == 'A' && FailureMessage[2] == 'U';
    assert NoMatchMessage[15] == 'n' && NoneFreeMessage[15] == 'd';
    assert NoneFreeMessage[2] == 'A';
  }

  predicate SingleLine(s: string) {
    '\n' !in s
  }

  /** The header reads the number of ranked rooms. */
  lemma HeaderCount(count: nat, slot: Slot)
    ensures var h := HeaderLine(count, slot);
      |h| >= 2 + |NatToString(count)| && ParseInt(h[2..2 + |NatToString(count)|]) == Some(count)
  {
    var h := HeaderLine(count, slot);
    assert h[2..2 + |NatToString(count)|] == NatToString(count);
    ParseIntToString(count);
  }

  lemma BulletSingle(room: Room)
    requires SingleLine(room.name) && SingleLine(room.location)
    ensures SingleLine(BulletLine(room))
  {
    NoBreakInIntText(room.capacity);
  }

  lemma HeaderSingle(count: nat, slot: Slot)
    requires SingleLine(slot.date) && SingleLine(slot.start) && SingleLine(slot.end)
    ensures SingleLine(HeaderLine(count, slot))
  {
    NoBreakInDigits(NatToString(count));
  }

  /** A found answer is the header, a blank line, and one line per ranked
      room, in ranking order. */
  lemma FoundResponseLines(ranked: seq<ScoredRoom>, slot: Slot)
    requires ranked != []
    requires SingleLine(slot.date) && SingleLine(slot.start) && SingleLine(slot.end)
    requires forall k :: 0 <= k < |ranked| ==> SingleLine(ranked[k].room.name) && SingleLine(ranked[k].room.location)
    ensures Lines(Response(Found(ranked), slot)) == [HeaderLine(|ranked|, slot), ""] + BulletLines(ranked)
  {
    var h := HeaderLine(|ranked|, slot);
    var bullets := BulletLines(ranked);
    HeaderSingle(|ranked|, slot);
    forall k | 0 <= k < |bullets| ensures '\n' !in bullets[k] {
      BulletSingle(ranked[k].room);
    }
    LinesAroundBlank(h, Join(bullets, "\n"));
    SplitWithoutSeparator(h, '\n');
    SplitJoin(bullets, '\n');
  }
}
